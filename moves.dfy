/** Enumerating legal moves and applying a move to a grid. */
module Moves {
  import opened Tiles
  import opened Grids
  import opened Capture

  /** p is visited before q by a scan with x in the outer loop and y in the inner loop. */
  predicate Before(p: Pos, q: Pos)
  {
    p.0 < q.0 || (p.0 == q.0 && p.1 < q.1)
  }

  /** Strictly ascending in scan order, hence free of duplicates. */
  predicate Ascending(s: seq<Pos>)
  {
    forall i, j :: 0 <= i < j < |s| ==> Before(s[i], s[j])
  }

  /** The legal targets (x, y) with y < n, by ascending y. */
  function ValidMovesInColumn(g: Grid, t: Tile, x: int, n: nat): (r: seq<Pos>)
    requires IsGrid(g) && 0 <= x < 8 && n <= 8
    ensures Ascending(r)
    ensures forall p :: p in r ==> p.0 == x && 0 <= p.1 < n
  {
    if n == 0 then []
    else ValidMovesInColumn(g, t, x, n - 1) + (if ValidMove(g, t, x, n - 1).Some? then [(x, n - 1)] else [])
  }

  /** The legal targets whose x is below n, in scan order. */
  function ValidMovesUpTo(g: Grid, t: Tile, n: nat): (r: seq<Pos>)
    requires IsGrid(g) && n <= 8
    ensures Ascending(r)
    ensures forall p :: p in r ==> 0 <= p.0 < n && 0 <= p.1 < 8
  {
    if n == 0 then []
    else
      var a := ValidMovesUpTo(g, t, n - 1);
      var b := ValidMovesInColumn(g, t, n - 1, |g[n - 1]|);
      assert forall i, j :: 0 <= i < |a| && 0 <= j < |b| ==> a[i] in a && b[j] in b;
      a + b
  }

  /** Every legal target for t, each once, with x ascending and then y ascending. */
  function ValidMoves(g: Grid, t: Tile): (r: seq<Pos>)
    requires IsGrid(g)
    ensures Ascending(r) && AllOnBoard(r)
  {
    var r := ValidMovesUpTo(g, t, |g|);
    assert forall i :: 0 <= i < |r| ==> r[i] in r;
    r
  }

  lemma {:induction false} ValidMovesInColumnSpec(g: Grid, t: Tile, x: int, n: nat)
    requires IsGrid(g) && 0 <= x < 8 && n <= 8
    ensures forall p :: p in ValidMovesInColumn(g, t, x, n) <==> p.0 == x && 0 <= p.1 < n && ValidMove(g, t, x, p.1).Some?
  {
    if n > 0 {
      ValidMovesInColumnSpec(g, t, x, n - 1);
    }
  }

  lemma {:induction false} ValidMovesUpToSpec(g: Grid, t: Tile, n: nat)
    requires IsGrid(g) && n <= 8
    ensures forall p :: p in ValidMovesUpTo(g, t, n) <==> 0 <= p.0 < n && 0 <= p.1 < 8 && ValidMove(g, t, p.0, p.1).Some?
  {
    if n > 0 {
      ValidMovesUpToSpec(g, t, n - 1);
      ValidMovesInColumnSpec(g, t, n - 1, 8);
    }
  }

  /** The valid-move list holds exactly the on-board targets where a move by t is accepted. */
  lemma ValidMovesSpec(g: Grid, t: Tile)
    requires IsGrid(g)
    ensures forall p :: p in ValidMoves(g, t) <==> OnBoard(p.0, p.1) && ValidMove(g, t, p.0, p.1).Some?
  {
    ValidMovesUpToSpec(g, t, 8);
  }

  /** Writes t into every listed cell, first to last; cells not listed keep their tile. */
  function ApplyFlips(g: Grid, flips: seq<Pos>, t: Tile): (r: Grid)
    requires IsGrid(g) && AllOnBoard(flips)
    ensures IsGrid(r)
    ensures forall a, b :: OnBoard(a, b) ==> r[a][b] == if (a, b) in flips then t else g[a][b]
  {
    if flips == [] then g
    else
      var last := flips[|flips| - 1];
      var r := ApplyFlips(g, flips[..|flips| - 1], t);
      assert forall c :: c in flips <==> c in flips[..|flips| - 1] || c == last;
      Set(r, last.0, last.1, t)
  }

  /** The grid after t moves to (x, y): unchanged when the move is rejected; otherwise the
      target and every captured cell hold t and no other cell changes. */
  function Play(g: Grid, t: Tile, x: int, y: int): (r: Grid)
    requires IsGrid(g) && OnBoard(x, y)
    ensures IsGrid(r)
    ensures ValidMove(g, t, x, y).None? ==> r == g
    ensures ValidMove(g, t, x, y).Some? ==>
      forall a, b :: OnBoard(a, b) ==>
        r[a][b] == if (a, b) == (x, y) || (a, b) in ValidMove(g, t, x, y).value then t else g[a][b]
  {
    match ValidMove(g, t, x, y)
    case None => g
    case Some(flips) =>
      CapturesSpec(g, t, x, y);
      ApplyFlips(Set(g, x, y, t), flips, t)
  }

  lemma {:induction false} ApplyFlipsCount(g: Grid, flips: seq<Pos>, t: Tile, u: Tile, w: Tile)
    requires IsGrid(g) && AllOnBoard(flips) && Distinct(flips) && u != t
    requires forall c :: c in flips ==> Cell(g, c) == u
    ensures Count(ApplyFlips(g, flips, t), w)
         == Count(g, w) + (if w == t then |flips| else 0) - (if w == u then |flips| else 0)
  {
    if flips != [] {
      var n := |flips| - 1;
      var last := flips[n];
      var init := flips[..n];
      assert forall c :: c in init ==> c in flips;
      ApplyFlipsCount(g, init, t, u, w);
      assert last !in init;
      assert flips[n] in flips;
      CountSet(ApplyFlips(g, init, t), last.0, last.1, t, w);
    }
  }

  /** A move that flips k tiles raises the mover's count by k + 1, lowers the opponent's by k
      and adds exactly one occupied cell. */
  lemma PlayCount(g: Grid, t: Tile, x: int, y: int)
    requires IsGrid(g) && OnBoard(x, y) && t != Empty && ValidMove(g, t, x, y).Some?
    ensures var k := |ValidMove(g, t, x, y).value|;
      var r := Play(g, t, x, y);
      Count(r, t) == Count(g, t) + k + 1 &&
      Count(r, Other(t)) == Count(g, Other(t)) - k &&
      Count(r, X) + Count(r, O) == Count(g, X) + Count(g, O) + 1
  {
    var flips := ValidMove(g, t, x, y).value;
    CapturesSpec(g, t, x, y);
    var g1 := Set(g, x, y, t);
    forall c | c in flips ensures Cell(g1, c) == Other(t) {
    }
    forall w: Tile
      ensures Count(Play(g, t, x, y), w)
           == Count(g, w) + (if w == t then |flips| + 1 else 0) - (if w == Other(t) then |flips| else 0)
              - (if w == Empty then 1 else 0)
    {
      CountSet(g, x, y, t, w);
      ApplyFlipsCount(g1, flips, t, Other(t), w);
    }
  }
}
