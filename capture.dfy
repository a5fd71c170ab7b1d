/** Capture sets: which opponent tiles a move at (x, y) would flip. */
module Capture {
  import opened Tiles
  import opened Grids

  predicate AllOnBoard(s: seq<Pos>)
  {
    forall i :: 0 <= i < |s| ==> OnBoard(s[i].0, s[i].1)
  }

  /** How many steps from (x, y) along (dx, dy) stay on the board. */
  function RayLen(x: int, y: int, dx: int, dy: int): nat
    requires OnBoard(x, y) && IsDir(dx, dy)
  {
    if Room(x, dx) <= Room(y, dy) then Room(x, dx) else Room(y, dy)
  }

  /** The on-board cells met when walking from (x, y) in direction (dx, dy), nearest first,
      excluding (x, y) itself. */
  function Ray(x: int, y: int, dx: int, dy: int): (r: seq<Pos>)
    requires OnBoard(x, y) && IsDir(dx, dy)
    ensures |r| == RayLen(x, y, dx, dy)
    ensures AllOnBoard(r)
  {
    RayLenReach(x, y, dx, dy);
    seq(RayLen(x, y, dx, dy), i requires 0 <= i < RayLen(x, y, dx, dy) => Step(x, y, (dx, dy), i + 1))
  }

  /** Length of the leading stretch of `ray` whose cells hold o. */
  function RunLength(g: Grid, o: Tile, ray: seq<Pos>): (n: nat)
    requires IsGrid(g) && AllOnBoard(ray)
    ensures n <= |ray|
    ensures forall i :: 0 <= i < n ==> Cell(g, ray[i]) == o
    ensures n < |ray| ==> Cell(g, ray[n]) != o
  {
    if ray == [] || Cell(g, ray[0]) != o then 0 else 1 + RunLength(g, o, ray[1..])
  }

  /** s from its last element to its first. */
  function Reversed<T>(s: seq<T>): seq<T>
  {
    seq(|s|, i requires 0 <= i < |s| => s[|s| - 1 - i])
  }

  /** Reversing a non-empty sequence puts its head last. */
  lemma ReversedCons<T>(s: seq<T>)
    requires |s| > 0
    ensures Reversed(s) == Reversed(s[1..]) + [s[0]]
  {
  }

  /** The cells one direction contributes: a run of at least one opponent tile closed by a
      tile t, listed from the far end back towards (x, y). */
  function RayCaptures(g: Grid, t: Tile, x: int, y: int, dx: int, dy: int): seq<Pos>
    requires IsGrid(g) && OnBoard(x, y) && IsDir(dx, dy)
  {
    WalkCaptures(g, t, Ray(x, y, dx, dy))
  }

  /** The same rule for any walk away from the target, nearest cell first. */
  function WalkCaptures(g: Grid, t: Tile, ray: seq<Pos>): seq<Pos>
    requires IsGrid(g) && AllOnBoard(ray)
  {
    var n := RunLength(g, Other(t), ray);
    if 1 <= n < |ray| && Cell(g, ray[n]) == t then Reversed(ray[..n]) else []
  }

  /** The parts joined end to end, first part first. */
  function Concat<T>(parts: seq<seq<T>>): seq<T>
    decreases |parts|
  {
    if parts == [] then [] else Concat(parts[..|parts| - 1]) + parts[|parts| - 1]
  }

  /** What each direction of dirs contributes, in the order of dirs. */
  function RaysCaptures(g: Grid, t: Tile, x: int, y: int, dirs: seq<Pos>): (parts: seq<seq<Pos>>)
    requires IsGrid(g) && OnBoard(x, y) && AllDirs(dirs)
    ensures |parts| == |dirs|
  {
    seq(|dirs|, i requires 0 <= i < |dirs| => RayCaptures(g, t, x, y, dirs[i].0, dirs[i].1))
  }

  /** Every cell that a move by t at (x, y) flips, the eight directions in scan order. */
  function Captures(g: Grid, t: Tile, x: int, y: int): seq<Pos>
    requires IsGrid(g) && OnBoard(x, y)
  {
    DirsAreDirections();
    Concat(RaysCaptures(g, t, x, y, Dirs))
  }

  /** None for a rejected move (occupied target or nothing to flip), otherwise the cells to flip. */
  function ValidMove(g: Grid, t: Tile, x: int, y: int): Option<seq<Pos>>
    requires IsGrid(g) && OnBoard(x, y)
  {
    if g[x][y] != Empty then None
    else
      var flips := Captures(g, t, x, y);
      if |flips| == 0 then None else Some(flips)
  }

  // ---------------------------------------------------------------------------------------
  // The rule stated geometrically, independently of the scan above.

  /** Going e steps from (x, y) along d crosses only opponent tiles and lands on a tile t. */
  ghost predicate FlankingRun(g: Grid, t: Tile, x: int, y: int, d: Pos, e: int)
    requires IsGrid(g)
  {
    OnBoard(Step(x, y, d, e).0, Step(x, y, d, e).1) && Cell(g, Step(x, y, d, e)) == t &&
    forall j :: 1 <= j < e ==>
      OnBoard(Step(x, y, d, j).0, Step(x, y, d, j).1) && Cell(g, Step(x, y, d, j)) == Other(t)
  }

  /** Cell c lies strictly between (x, y) and a tile t along one of the eight compass
      directions, with only opponent tiles in between. */
  ghost predicate Flanked(g: Grid, t: Tile, x: int, y: int, c: Pos)
    requires IsGrid(g)
  {
    exists d: Pos, k, e :: IsDir(d.0, d.1) && 1 <= k < e && c == Step(x, y, d, k) && FlankingRun(g, t, x, y, d, e)
  }

  // ---------------------------------------------------------------------------------------
  // Geometry of rays

  /** The first RayLen steps stay on the board and the next one leaves it. */
  lemma RayLenReach(x: int, y: int, dx: int, dy: int)
    requires OnBoard(x, y) && IsDir(dx, dy)
    ensures forall i {:trigger Step(x, y, (dx, dy), i)} :: 1 <= i <= RayLen(x, y, dx, dy) ==>
      OnBoard(Step(x, y, (dx, dy), i).0, Step(x, y, (dx, dy), i).1)
    ensures !OnBoard(Step(x, y, (dx, dy), RayLen(x, y, dx, dy) + 1).0, Step(x, y, (dx, dy), RayLen(x, y, dx, dy) + 1).1)
  {
  }

  /** The i-th cell of a ray is i + 1 steps from its origin. */
  lemma RayAt(x: int, y: int, dx: int, dy: int, i: nat)
    requires OnBoard(x, y) && IsDir(dx, dy) && i < |Ray(x, y, dx, dy)|
    ensures Ray(x, y, dx, dy)[i] == Step(x, y, (dx, dy), i + 1)
  {
  }

  /** One more step along d moves by d. */
  lemma StepNext(x: int, y: int, d: Pos, j: int)
    requires IsDir(d.0, d.1)
    ensures Step(x, y, d, j + 1) == (Step(x, y, d, j).0 + d.0, Step(x, y, d, j).1 + d.1)
  {
  }

  /** A ray is empty exactly when the first step leaves the board; otherwise that step is
      its first cell. */
  lemma RayFirst(x: int, y: int, dx: int, dy: int)
    requires OnBoard(x, y) && IsDir(dx, dy)
    ensures |Ray(x, y, dx, dy)| == 0 <==> !OnBoard(x + dx, y + dy)
    ensures |Ray(x, y, dx, dy)| > 0 ==> Ray(x, y, dx, dy)[0] == (x + dx, y + dy)
  {
    if |Ray(x, y, dx, dy)| > 0 {
      RayAt(x, y, dx, dy, 0);
      StepNext(x, y, (dx, dy), 0);
    }
  }

  /** Consecutive cells of a ray are one step apart. */
  lemma RayNext(x: int, y: int, dx: int, dy: int, i: nat)
    requires OnBoard(x, y) && IsDir(dx, dy) && i + 1 < |Ray(x, y, dx, dy)|
    ensures Ray(x, y, dx, dy)[i + 1] == (Ray(x, y, dx, dy)[i].0 + dx, Ray(x, y, dx, dy)[i].1 + dy)
  {
    RayAt(x, y, dx, dy, i);
    RayAt(x, y, dx, dy, i + 1);
    StepNext(x, y, (dx, dy), i + 1);
  }

  /** One step past the last cell of a ray leaves the board. */
  lemma RayLast(x: int, y: int, dx: int, dy: int)
    requires OnBoard(x, y) && IsDir(dx, dy) && 0 < |Ray(x, y, dx, dy)|
    ensures var r := Ray(x, y, dx, dy); !OnBoard(r[|r| - 1].0 + dx, r[|r| - 1].1 + dy)
  {
    var n := |Ray(x, y, dx, dy)|;
    RayAt(x, y, dx, dy, n - 1);
    RayLenReach(x, y, dx, dy);
    StepNext(x, y, (dx, dy), n);
  }

  /** Cells of ray follow one another by unit steps (dx, dy), and one more step past the last
      cell leaves the board. */
  ghost predicate IsWalk(ray: seq<Pos>, dx: int, dy: int)
  {
    (forall i, j :: 0 <= i < j < |ray| && j == i + 1 ==> ray[j] == (ray[i].0 + dx, ray[i].1 + dy)) &&
    (|ray| > 0 ==> !OnBoard(ray[|ray| - 1].0 + dx, ray[|ray| - 1].1 + dy))
  }

  /** ray is such a walk of on-board cells that starts one step from (x, y) and never comes
      back to (x, y); it is empty only when that first step leaves the board. */
  ghost predicate IsWalkFrom(ray: seq<Pos>, x: int, y: int, dx: int, dy: int)
  {
    AllOnBoard(ray) && IsWalk(ray, dx, dy) &&
    (|ray| == 0 ==> !OnBoard(x + dx, y + dy)) &&
    (|ray| > 0 ==> ray[0] == (x + dx, y + dy)) &&
    forall i :: 0 <= i < |ray| ==> ray[i] != (x, y)
  }

  /** A ray is such a walk from its origin. */
  lemma RayIsWalk(x: int, y: int, dx: int, dy: int)
    requires OnBoard(x, y) && IsDir(dx, dy)
    ensures IsWalkFrom(Ray(x, y, dx, dy), x, y, dx, dy)
  {
    RaySteps(x, y, dx, dy);
    RayFirst(x, y, dx, dy);
    RayAvoidsOrigin(x, y, dx, dy);
  }

  /** Consecutive cells of a ray are one step apart, and the step after the last leaves the board. */
  lemma RaySteps(x: int, y: int, dx: int, dy: int)
    requires OnBoard(x, y) && IsDir(dx, dy)
    ensures IsWalk(Ray(x, y, dx, dy), dx, dy)
  {
    RayLenReach(x, y, dx, dy);
    StepsWalk(Ray(x, y, dx, dy), x, y, dx, dy);
  }

  /** A sequence whose i-th cell is i + 1 steps out from (x, y), and whose next step would
      leave the board, is a walk. */
  lemma StepsWalk(ray: seq<Pos>, x: int, y: int, dx: int, dy: int)
    requires IsDir(dx, dy)
    requires forall i :: 0 <= i < |ray| ==> ray[i] == Step(x, y, (dx, dy), i + 1)
    requires |ray| > 0 ==> !OnBoard(Step(x, y, (dx, dy), |ray| + 1).0, Step(x, y, (dx, dy), |ray| + 1).1)
    ensures IsWalk(ray, dx, dy)
  {
    forall i, j | 0 <= i < j < |ray| && j == i + 1 ensures ray[j] == (ray[i].0 + dx, ray[i].1 + dy) {
      StepNext(x, y, (dx, dy), i + 1);
    }
    if |ray| > 0 {
      StepNext(x, y, (dx, dy), |ray|);
    }
  }

  /** No cell of a ray is its origin. */
  lemma RayAvoidsOrigin(x: int, y: int, dx: int, dy: int)
    requires OnBoard(x, y) && IsDir(dx, dy)
    ensures forall i :: 0 <= i < |Ray(x, y, dx, dy)| ==> Ray(x, y, dx, dy)[i] != (x, y)
  {
    forall i | 0 <= i < |Ray(x, y, dx, dy)| ensures Ray(x, y, dx, dy)[i] != (x, y) {
      RayHeading(x, y, dx, dy, i);
    }
  }

  /** Every cell of a ray lies in the ray's own direction from its origin. */
  lemma RayHeading(x: int, y: int, dx: int, dy: int, i: nat)
    requires OnBoard(x, y) && IsDir(dx, dy) && i < |Ray(x, y, dx, dy)|
    ensures Heading((x, y), Ray(x, y, dx, dy)[i]) == (dx, dy)
  {
    RayAt(x, y, dx, dy, i);
  }

  /** A ray never visits a cell twice. */
  lemma RayDistinct(x: int, y: int, dx: int, dy: int)
    requires OnBoard(x, y) && IsDir(dx, dy)
    ensures Distinct(Ray(x, y, dx, dy))
  {
    var r := Ray(x, y, dx, dy);
    forall i, j | 0 <= i < j < |r| ensures r[i] != r[j] {
      RayAt(x, y, dx, dy, i);
      RayAt(x, y, dx, dy, j);
    }
  }

  /** If the first j steps from (x, y) stay on the board, the ray has at least j cells. */
  lemma RayReaches(x: int, y: int, dx: int, dy: int, j: nat)
    requires OnBoard(x, y) && IsDir(dx, dy) && 1 <= j
    requires forall m :: 1 <= m <= j ==> OnBoard(Step(x, y, (dx, dy), m).0, Step(x, y, (dx, dy), m).1)
    ensures j <= |Ray(x, y, dx, dy)|
  {
    RayLenReach(x, y, dx, dy);
  }

  // ---------------------------------------------------------------------------------------
  // One direction

  /** What one direction contributes: on-board opponent cells, all in that direction from
      the target, each flanked, none twice. */
  lemma RayCapturesSound(g: Grid, t: Tile, x: int, y: int, dx: int, dy: int)
    requires IsGrid(g) && OnBoard(x, y) && IsDir(dx, dy)
    ensures var cs := RayCaptures(g, t, x, y, dx, dy);
      Distinct(cs) &&
      forall c :: c in cs ==>
        OnBoard(c.0, c.1) && Cell(g, c) == Other(t) && Heading((x, y), c) == (dx, dy) && Flanked(g, t, x, y, c)
  {
    var ray := Ray(x, y, dx, dy);
    var n := RunLength(g, Other(t), ray);
    var cs := RayCaptures(g, t, x, y, dx, dy);
    if 1 <= n < |ray| && Cell(g, ray[n]) == t {
      RayDistinct(x, y, dx, dy);
      ReversedPrefix(ray, n);
      RunFlanks(g, t, x, y, dx, dy, n);
      forall c | c in cs
        ensures OnBoard(c.0, c.1) && Cell(g, c) == Other(t) && Heading((x, y), c) == (dx, dy) && Flanked(g, t, x, y, c)
      {
        var i :| 0 <= i < |cs| && cs[i] == c;
        RunCellFlanked(g, t, x, y, dx, dy, n, n - i);
      }
    }
  }

  /** The first n elements of s, last first; distinct when s is. */
  lemma ReversedPrefix<T>(s: seq<T>, n: nat)
    requires n <= |s|
    ensures var r := Reversed(s[..n]);
      |r| == n && (forall i :: 0 <= i < n ==> r[i] == s[n - 1 - i]) && (Distinct(s) ==> Distinct(r))
  {
  }

  /** A run of n opponent tiles along a ray, closed by a tile t, is a flanking run. */
  lemma RunFlanks(g: Grid, t: Tile, x: int, y: int, dx: int, dy: int, n: nat)
    requires IsGrid(g) && OnBoard(x, y) && IsDir(dx, dy)
    requires n == RunLength(g, Other(t), Ray(x, y, dx, dy))
    requires 1 <= n < |Ray(x, y, dx, dy)| && Cell(g, Ray(x, y, dx, dy)[n]) == t
    ensures FlankingRun(g, t, x, y, (dx, dy), n + 1)
  {
    RayAt(x, y, dx, dy, n);
    forall j | 1 <= j < n + 1
      ensures OnBoard(Step(x, y, (dx, dy), j).0, Step(x, y, (dx, dy), j).1)
      ensures Cell(g, Step(x, y, (dx, dy), j)) == Other(t)
    {
      RayAt(x, y, dx, dy, j - 1);
    }
  }

  /** The k-th cell of such a run is an opponent cell in direction (dx, dy), flanked. */
  lemma RunCellFlanked(g: Grid, t: Tile, x: int, y: int, dx: int, dy: int, n: nat, k: nat)
    requires IsGrid(g) && OnBoard(x, y) && IsDir(dx, dy)
    requires n == RunLength(g, Other(t), Ray(x, y, dx, dy))
    requires 1 <= k <= n < |Ray(x, y, dx, dy)|
    requires FlankingRun(g, t, x, y, (dx, dy), n + 1)
    ensures var c := Ray(x, y, dx, dy)[k - 1];
      OnBoard(c.0, c.1) && Cell(g, c) == Other(t) && Heading((x, y), c) == (dx, dy) && Flanked(g, t, x, y, c)
  {
    RayHeading(x, y, dx, dy, k - 1);
    RayAt(x, y, dx, dy, k - 1);
  }

  /** Conversely, every cell flanked along direction (dx, dy) is captured by that direction. */
  lemma RayCapturesComplete(g: Grid, t: Tile, x: int, y: int, dx: int, dy: int, k: int, e: int)
    requires IsGrid(g) && OnBoard(x, y) && IsDir(dx, dy) && 1 <= k < e
    requires FlankingRun(g, t, x, y, (dx, dy), e)
    ensures Step(x, y, (dx, dy), k) in RayCaptures(g, t, x, y, dx, dy)
  {
    var ray := Ray(x, y, dx, dy);
    FlankingRunOnRay(g, t, x, y, dx, dy, e);
    RunLengthIs(g, Other(t), ray, e - 1);
    ReversedPrefix(ray, e - 1);
    RayAt(x, y, dx, dy, k - 1);
    assert RayCaptures(g, t, x, y, dx, dy)[e - 1 - k] == ray[k - 1];
  }

  /** A flanking run of length e lies along the ray: its first e - 1 cells hold the
      opponent's tiles and the next one holds t. */
  lemma FlankingRunOnRay(g: Grid, t: Tile, x: int, y: int, dx: int, dy: int, e: int)
    requires IsGrid(g) && OnBoard(x, y) && IsDir(dx, dy) && 1 < e
    requires FlankingRun(g, t, x, y, (dx, dy), e)
    ensures var ray := Ray(x, y, dx, dy);
      e - 1 < |ray| && (forall i :: 0 <= i < e - 1 ==> Cell(g, ray[i]) == Other(t)) && Cell(g, ray[e - 1]) == t
  {
    var ray := Ray(x, y, dx, dy);
    RayReaches(x, y, dx, dy, e);
    forall i | 0 <= i < e - 1 ensures Cell(g, ray[i]) == Other(t) {
      RayAt(x, y, dx, dy, i);
    }
    RayAt(x, y, dx, dy, e - 1);
  }

  /** The run length is the first position that does not hold o. */
  lemma RunLengthIs(g: Grid, o: Tile, ray: seq<Pos>, n: nat)
    requires IsGrid(g) && AllOnBoard(ray) && n <= |ray|
    requires forall i :: 0 <= i < n ==> Cell(g, ray[i]) == o
    requires n < |ray| ==> Cell(g, ray[n]) != o
    ensures RunLength(g, o, ray) == n
  {
  }

  /** The scan of one direction never reads the target cell, so what the target holds does not matter. */
  lemma RayCapturesIgnoreTarget(g: Grid, t: Tile, x: int, y: int, dx: int, dy: int, v: Tile)
    requires IsGrid(g) && OnBoard(x, y) && IsDir(dx, dy)
    ensures RayCaptures(Set(g, x, y, v), t, x, y, dx, dy) == RayCaptures(g, t, x, y, dx, dy)
  {
    var h := Set(g, x, y, v);
    var ray := Ray(x, y, dx, dy);
    forall i | 0 <= i < |ray| ensures Cell(h, ray[i]) == Cell(g, ray[i]) {
      RayHeading(x, y, dx, dy, i);
    }
    RunLengthAgree(g, h, Other(t), ray);
  }

  lemma {:induction false} RunLengthAgree(g: Grid, h: Grid, o: Tile, ray: seq<Pos>)
    requires IsGrid(g) && IsGrid(h) && AllOnBoard(ray)
    requires forall i :: 0 <= i < |ray| ==> Cell(g, ray[i]) == Cell(h, ray[i])
    ensures RunLength(g, o, ray) == RunLength(h, o, ray)
  {
    if ray != [] && Cell(g, ray[0]) == o {
      RunLengthAgree(g, h, o, ray[1..]);
    }
  }

  // ---------------------------------------------------------------------------------------
  // Joining the parts

  /** Joining one more part appends it. */
  lemma ConcatSnoc<T>(parts: seq<seq<T>>, n: nat)
    requires n < |parts|
    ensures Concat(parts[..n + 1]) == Concat(parts[..n]) + parts[n]
  {
    assert parts[..n + 1][..n] == parts[..n];
  }

  /** Every element of a part is in the joined sequence. */
  lemma {:induction false} ConcatHas<T>(parts: seq<seq<T>>, i: nat, c: T)
    requires i < |parts| && c in parts[i]
    ensures c in Concat(parts)
    decreases |parts|
  {
    var n := |parts| - 1;
    if i < n {
      assert parts[..n][i] == parts[i];
      ConcatHas(parts[..n], i, c);
    }
  }

  /** Every element of the joined sequence comes from some part. */
  lemma {:induction false} ConcatFrom<T>(parts: seq<seq<T>>, c: T) returns (i: nat)
    requires c in Concat(parts)
    ensures i < |parts| && c in parts[i]
    decreases |parts|
  {
    var n := |parts| - 1;
    if c in parts[n] {
      i := n;
    } else {
      i := ConcatFrom(parts[..n], c);
      assert parts[..n][i] == parts[i];
    }
  }

  /** Parts that are each free of duplicates and pairwise disjoint join into a sequence free of
      duplicates. */
  lemma {:induction false} ConcatDistinct<T>(parts: seq<seq<T>>)
    requires forall i :: 0 <= i < |parts| ==> Distinct(parts[i])
    requires forall i, j, c :: 0 <= i < j < |parts| && c in parts[i] ==> c !in parts[j]
    ensures Distinct(Concat(parts))
    decreases |parts|
  {
    if parts != [] {
      var n := |parts| - 1;
      var pre := parts[..n];
      forall i | 0 <= i < n ensures pre[i] == parts[i] {
      }
      ConcatDistinct(pre);
      var a := Concat(pre);
      var b := parts[n];
      forall p, q | 0 <= p < |a| && 0 <= q < |b| ensures a[p] != b[q] {
        assert a[p] in a;
        var i := ConcatFrom(pre, a[p]);
      }
      assert Concat(parts) == a + b;
    }
  }

  /** The capture set is exactly the set of flanked cells: each listed once, on the board,
      different from the target and holding the opponent's tile. */
  lemma CapturesSpec(g: Grid, t: Tile, x: int, y: int)
    requires IsGrid(g) && OnBoard(x, y)
    ensures Distinct(Captures(g, t, x, y))
    ensures forall c :: c in Captures(g, t, x, y) ==>
              OnBoard(c.0, c.1) && c != (x, y) && Cell(g, c) == Other(t)
    ensures forall c :: c in Captures(g, t, x, y) <==> Flanked(g, t, x, y, c)
  {
    DirsAreDirections();
    var parts := RaysCaptures(g, t, x, y, Dirs);
    forall i | 0 <= i < |parts|
      ensures Distinct(parts[i])
      ensures forall c: Pos :: c in parts[i] ==>
        OnBoard(c.0, c.1) && Cell(g, c) == Other(t) && Heading((x, y), c) == Dirs[i] && Flanked(g, t, x, y, c)
    {
      RayCapturesSound(g, t, x, y, Dirs[i].0, Dirs[i].1);
    }
    ConcatDistinct(parts);
    forall c | c in Captures(g, t, x, y)
      ensures OnBoard(c.0, c.1) && c != (x, y) && Cell(g, c) == Other(t) && Flanked(g, t, x, y, c)
    {
      var i := ConcatFrom(parts, c);
      assert IsDir(Heading((x, y), c).0, Heading((x, y), c).1);
    }
    forall c | Flanked(g, t, x, y, c) ensures c in Captures(g, t, x, y) {
      var d: Pos, k, e :| IsDir(d.0, d.1) && 1 <= k < e && c == Step(x, y, d, k) && FlankingRun(g, t, x, y, d, e);
      RayCapturesComplete(g, t, x, y, d.0, d.1, k, e);
      ConcatHas(parts, DirIndex(d), c);
    }
  }

  /** A move is rejected exactly when its target is occupied or nothing is flanked; an accepted
      move lists every flanked cell once. */
  lemma ValidMoveSpec(g: Grid, t: Tile, x: int, y: int)
    requires IsGrid(g) && OnBoard(x, y)
    ensures g[x][y] != Empty ==> ValidMove(g, t, x, y) == None
    ensures ValidMove(g, t, x, y).Some? <==> g[x][y] == Empty && exists c :: Flanked(g, t, x, y, c)
    ensures ValidMove(g, t, x, y).Some? ==>
      var flips := ValidMove(g, t, x, y).value;
      flips != [] && Distinct(flips) &&
      forall c :: c in flips <==> Flanked(g, t, x, y, c)
  {
    CapturesSpec(g, t, x, y);
    var cs := Captures(g, t, x, y);
    if g[x][y] == Empty && exists c :: Flanked(g, t, x, y, c) {
      var c :| Flanked(g, t, x, y, c);
      assert c in cs;
    }
    if ValidMove(g, t, x, y).Some? {
      assert cs[0] in cs;
    }
  }

  /** Temporarily writing a tile into the target cell changes nothing in the capture set. */
  lemma CapturesIgnoreTarget(g: Grid, t: Tile, x: int, y: int, v: Tile)
    requires IsGrid(g) && OnBoard(x, y)
    ensures Captures(Set(g, x, y, v), t, x, y) == Captures(g, t, x, y)
  {
    DirsAreDirections();
    var before := RaysCaptures(g, t, x, y, Dirs);
    var after := RaysCaptures(Set(g, x, y, v), t, x, y, Dirs);
    forall i | 0 <= i < |Dirs| ensures after[i] == before[i] {
      RayCapturesIgnoreTarget(g, t, x, y, Dirs[i].0, Dirs[i].1, v);
    }
    assert after == before;
  }
}
