/** The computer opponent: first corner in a shuffled candidate list, else the candidate that
    leaves the computer with the most tiles, earliest first on ties. */
module Opponent {
  import opened Tiles
  import opened Grids
  import opened Capture
  import opened Moves
  import opened BoardState

  /** 0, 1, ..., n - 1. */
  function Iota(n: nat): (r: seq<nat>)
    ensures |r| == n && forall i :: 0 <= i < n ==> r[i] == i
  {
    seq(n, i => i)
  }

  /** perm lists the indices 0 .. n - 1, each exactly once, in some order: the outcome of a
      random shuffle of an n-element list. */
  ghost predicate IsShuffle(perm: seq<nat>, n: nat)
  {
    multiset(perm) == multiset(Iota(n))
  }

  /** A shuffle of n elements has n indices, all below n, and every index below n occurs. */
  lemma ShuffleIndices(perm: seq<nat>, n: nat)
    requires IsShuffle(perm, n)
    ensures |perm| == n
    ensures forall i :: 0 <= i < |perm| ==> perm[i] < n
    ensures forall j :: 0 <= j < n ==> j in perm
  {
    var iota := Iota(n);
    assert |perm| == |multiset(perm)| == |multiset(iota)| == n;
    forall i | 0 <= i < |perm|
      ensures perm[i] < n
    {
      assert perm[i] in multiset(perm);
      assert perm[i] in iota;
    }
    forall j | 0 <= j < n
      ensures j in perm
    {
      assert iota[j] == j;
      assert j in multiset(iota);
    }
  }

  /** Every entry of idx is a position below n. */
  predicate Indexes(idx: seq<nat>, n: nat)
  {
    forall i :: 0 <= i < |idx| ==> idx[i] < n
  }

  /** The elements of s at the positions idx lists, in the order idx lists them. */
  function Pick<T>(s: seq<T>, idx: seq<nat>): (r: seq<T>)
    requires Indexes(idx, |s|)
    ensures |r| == |idx| && forall i :: 0 <= i < |idx| ==> r[i] == s[idx[i]]
  {
    seq(|idx|, i requires 0 <= i < |idx| => s[idx[i]])
  }

  /** Picking along two index lists one after the other picks along their concatenation. */
  lemma PickAppend<T>(s: seq<T>, a: seq<nat>, b: seq<nat>)
    requires Indexes(a, |s|)
    requires Indexes(b, |s|)
    ensures Indexes(a + b, |s|)
    ensures Pick(s, a + b) == Pick(s, a) + Pick(s, b)
  {
  }

  /** Index lists holding the same indices, in any order, pick the same elements. */
  lemma {:induction false} PickMultiset<T>(s: seq<T>, p: seq<nat>, q: seq<nat>)
    requires Indexes(p, |s|)
    requires Indexes(q, |s|)
    requires multiset(p) == multiset(q)
    ensures multiset(Pick(s, p)) == multiset(Pick(s, q))
    decreases |p|
  {
    if p != [] {
      assert p[0] in multiset(q);
      var k :| 0 <= k < |q| && q[k] == p[0];
      var rest := q[..k] + q[k + 1..];
      RemoveOne(p, q, k);
      PickMultiset(s, p[1..], rest);
      PickCons(s, p);
      PickRemove(s, q, k);
    }
  }

  /** Picking along a non-empty p picks the element at its first index, then the rest. */
  lemma PickCons<T>(s: seq<T>, p: seq<nat>)
    requires Indexes(p, |s|)
    requires p != []
    ensures Indexes(p[1..], |s|)
    ensures multiset(Pick(s, p)) == multiset{s[p[0]]} + multiset(Pick(s, p[1..]))
  {
    assert Pick(s, p) == [s[p[0]]] + Pick(s, p[1..]);
  }

  /** Removing the head of p and an equal element of q keeps their multisets equal. */
  lemma RemoveOne<T>(p: seq<T>, q: seq<T>, k: nat)
    requires p != [] && k < |q| && q[k] == p[0] && multiset(p) == multiset(q)
    ensures multiset(p[1..]) == multiset(q[..k] + q[k + 1..])
  {
    assert p == [p[0]] + p[1..];
    assert q == q[..k] + [q[k]] + q[k + 1..];
    var rest := q[..k] + q[k + 1..];
    assert multiset(rest) == multiset(q[..k]) + multiset(q[k + 1..]);
    assert multiset(p[1..]) == multiset(p) - multiset{p[0]};
    assert multiset(rest) == multiset(q) - multiset{q[k]};
  }

  /** Picking along q is picking along q without its k-th index, plus the element that index picks. */
  lemma PickRemove<T>(s: seq<T>, q: seq<nat>, k: nat)
    requires Indexes(q, |s|)
    requires k < |q|
    ensures Indexes(q[..k] + q[k + 1..], |s|)
    ensures multiset(Pick(s, q)) == multiset(Pick(s, q[..k] + q[k + 1..])) + multiset{s[q[k]]}
  {
    var front, back := q[..k], q[k + 1..];
    assert q == front + [q[k]] + back;
    PickAppend(s, front, back);
    PickAppend(s, front, [q[k]]);
    PickAppend(s, front + [q[k]], back);
  }

  /** Two sequences with the same elements, counted with multiplicity, are both duplicate-free
      or both not. */
  lemma MultisetDistinct<T>(a: seq<T>, b: seq<T>)
    requires multiset(a) == multiset(b) && Distinct(a)
    ensures Distinct(b)
  {
    forall i, j | 0 <= i < j < |b| ensures b[i] != b[j] {
      if b[i] == b[j] {
        assert b == b[..j] + b[j..];
        assert b[i] in multiset(b[..j]) && b[j] in multiset(b[j..]);
        assert multiset(a)[b[i]] >= 2;
        DistinctOnce(a, b[i]);
      }
    }
  }

  /** A duplicate-free sequence holds each value at most once. */
  lemma {:induction false} DistinctOnce<T>(a: seq<T>, v: T)
    requires Distinct(a)
    ensures multiset(a)[v] <= 1
    decreases |a|
  {
    if a != [] {
      assert a == [a[0]] + a[1..];
      DistinctOnce(a[1..], v);
      if v == a[0] {
        assert v !in a[1..];
      }
    }
  }

  /** The list s rearranged by perm: its i-th element is s[perm[i]]. It is a permutation of s:
      every element occurs as often as in s. */
  function Shuffle(s: seq<Pos>, perm: seq<nat>): (r: seq<Pos>)
    requires IsShuffle(perm, |s|)
    ensures |r| == |s| && multiset(r) == multiset(s)
    ensures forall p :: p in r <==> p in s
    ensures Distinct(s) ==> Distinct(r)
  {
    ShuffleIndices(perm, |s|);
    var r := Pick(s, perm);
    PickMultiset(s, perm, Iota(|s|));
    assert Pick(s, Iota(|s|)) == s;
    assert forall p :: p in r <==> p in multiset(r);
    assert forall p :: p in s <==> p in multiset(s);
    assert Distinct(s) ==> Distinct(r) by {
      if Distinct(s) {
        MultisetDistinct(s, r);
      }
    }
    r
  }

  /** The computer's tile count after it plays p on a copy of g. */
  function ScoreAfter(g: Grid, t: Tile, p: Pos): (n: nat)
    requires IsGrid(g) && t != Empty && OnBoard(p.0, p.1)
  {
    Count(Play(g, t, p.0, p.1), t)
  }

  /** A rejected move leaves the computer's count as it was; a valid one adds the target and
      every flipped tile. */
  lemma ScoreAfterFlips(g: Grid, t: Tile, p: Pos)
    requires IsGrid(g) && t != Empty && OnBoard(p.0, p.1)
    ensures ValidMove(g, t, p.0, p.1).None? ==> ScoreAfter(g, t, p) == Count(g, t)
    ensures ValidMove(g, t, p.0, p.1).Some? ==>
      ScoreAfter(g, t, p) == Count(g, t) + |ValidMove(g, t, p.0, p.1).value| + 1
  {
    if ValidMove(g, t, p.0, p.1).Some? {
      PlayCount(g, t, p.0, p.1);
    }
  }

  /** The score of every candidate, in candidate order. */
  function Scores(g: Grid, t: Tile, order: seq<Pos>): (s: seq<nat>)
    requires IsGrid(g) && t != Empty && AllOnBoard(order)
    ensures |s| == |order|
  {
    seq(|order|, i requires 0 <= i < |order| => ScoreAfter(g, t, order[i]))
  }

  /** A list holding the score of every candidate. */
  lemma {:induction false} ScoreList(g: Grid, t: Tile, order: seq<Pos>) returns (s: seq<int>)
    requires IsGrid(g) && t != Empty && AllOnBoard(order)
    ensures |s| == |order|
    ensures forall i {:trigger ScoreAfter(g, t, order[i])} :: 0 <= i < |order| ==> s[i] == ScoreAfter(g, t, order[i])
    decreases |order|
  {
    if order == [] {
      s := [];
    } else {
      var front := order[..|order| - 1];
      var r := ScoreList(g, t, front);
      s := r + [ScoreAfter(g, t, order[|order| - 1])];
      forall i | 0 <= i < |order|
        ensures s[i] == ScoreAfter(g, t, order[i])
      {
        if i < |order| - 1 {
          assert order[i] == front[i];
        }
      }
    }
  }

  /** Any sequence that holds the score of every candidate is the candidates' score list. */
  lemma ScoresAre(g: Grid, t: Tile, order: seq<Pos>, s: seq<int>)
    requires IsGrid(g) && t != Empty && AllOnBoard(order) && |s| == |order|
    requires forall i {:trigger ScoreAfter(g, t, order[i])} :: 0 <= i < |order| ==> s[i] == ScoreAfter(g, t, order[i])
    ensures s == Scores(g, t, order)
  {
    var r := Scores(g, t, order);
    forall i | 0 <= i < |order|
      ensures s[i] == r[i]
    {
      assert s[i] == ScoreAfter(g, t, order[i]);
    }
  }

  /** The position of the first maximum of s: no entry is larger, every earlier one is smaller. */
  function FirstMax(s: seq<int>): (k: nat)
    requires |s| > 0
    ensures k < |s|
    ensures forall j :: 0 <= j < |s| ==> s[j] <= s[k]
    ensures forall j :: 0 <= j < k ==> s[j] < s[k]
  {
    if |s| == 1 then 0
    else
      var k := FirstMax(s[..|s| - 1]);
      if s[|s| - 1] > s[k] then |s| - 1 else k
  }

  /** The position of the first corner in order, if any. */
  function FirstCorner(order: seq<Pos>): (r: Option<nat>)
    ensures r.Some? ==> r.value < |order| && OnCorner(order[r.value].0, order[r.value].1)
    ensures r.Some? ==> forall j :: 0 <= j < r.value ==> !OnCorner(order[j].0, order[j].1)
    ensures r.None? <==> forall p :: p in order ==> !OnCorner(p.0, p.1)
  {
    if order == [] then None
    else
      var init := order[..|order| - 1];
      var last := order[|order| - 1];
      assert forall p :: p in order <==> p in init || p == last;
      match FirstCorner(init)
      case Some(k) => Some(k)
      case None => if OnCorner(last.0, last.1) then Some(|order| - 1) else None
  }

  /** The valid moves in the shuffled order given by perm. */
  function Candidates(g: Grid, t: Tile, perm: seq<nat>): (order: seq<Pos>)
    requires IsGrid(g) && IsShuffle(perm, |ValidMoves(g, t)|)
    ensures AllOnBoard(order) && |order| == |ValidMoves(g, t)|
  {
    var moves := ValidMoves(g, t);
    var order := Shuffle(moves, perm);
    assert forall i :: 0 <= i < |order| ==> order[i] in moves;
    order
  }

  /** The candidates are exactly the valid moves, each listed once. */
  lemma CandidatesSpec(g: Grid, t: Tile, perm: seq<nat>)
    requires IsGrid(g) && IsShuffle(perm, |ValidMoves(g, t)|)
    ensures forall p :: p in Candidates(g, t, perm) <==> OnBoard(p.0, p.1) && ValidMove(g, t, p.0, p.1).Some?
    ensures Distinct(Candidates(g, t, perm))
  {
    ValidMovesSpec(g, t);
    var moves := ValidMoves(g, t);
    assert Distinct(moves) by {
      forall i, j | 0 <= i < j < |moves| ensures moves[i] != moves[j] {
        assert Before(moves[i], moves[j]);
      }
    }
  }

  /** The move the computer chooses: the first corner among the candidates, otherwise the
      first candidate with the highest score. */
  function ComputerChoice(g: Grid, t: Tile, perm: seq<nat>): (p: Pos)
    requires IsGrid(g) && t != Empty
    requires IsShuffle(perm, |ValidMoves(g, t)|) && |ValidMoves(g, t)| > 0
  {
    var order := Candidates(g, t, perm);
    match FirstCorner(order)
    case Some(k) => order[k]
    case None => order[FirstMax(Scores(g, t, order))]
  }

  /** The choice is a valid move, and it is a corner exactly when some valid move is. A corner
      choice is the first corner in shuffled order. */
  lemma ComputerChoiceCorner(g: Grid, t: Tile, perm: seq<nat>)
    requires IsGrid(g) && t != Empty
    requires IsShuffle(perm, |ValidMoves(g, t)|) && |ValidMoves(g, t)| > 0
    ensures var p := ComputerChoice(g, t, perm);
      OnBoard(p.0, p.1) && ValidMove(g, t, p.0, p.1).Some?
    ensures var p := ComputerChoice(g, t, perm);
      OnCorner(p.0, p.1) <==> exists q: Pos :: OnCorner(q.0, q.1) && ValidMove(g, t, q.0, q.1).Some?
    ensures var p := ComputerChoice(g, t, perm); var order := Candidates(g, t, perm);
      OnCorner(p.0, p.1) ==>
        exists k :: 0 <= k < |order| && order[k] == p && forall j :: 0 <= j < k ==> !OnCorner(order[j].0, order[j].1)
  {
    var order := Candidates(g, t, perm);
    var p := ComputerChoice(g, t, perm);
    CandidatesSpec(g, t, perm);
    match FirstCorner(order)
    case Some(k) =>
      assert order[k] in order;
    case None =>
      var k := FirstMax(Scores(g, t, order));
      assert order[k] in order;
      if q: Pos :| OnCorner(q.0, q.1) && ValidMove(g, t, q.0, q.1).Some? {
        assert false;
      }
  }

  /** Without a corner, the choice scores at least as much as every candidate, and strictly
      more than every candidate before it in shuffled order. */
  lemma ComputerChoiceGreedy(g: Grid, t: Tile, perm: seq<nat>)
    requires IsGrid(g) && t != Empty
    requires IsShuffle(perm, |ValidMoves(g, t)|) && |ValidMoves(g, t)| > 0
    requires forall q: Pos :: OnCorner(q.0, q.1) ==> ValidMove(g, t, q.0, q.1).None?
    ensures var p := ComputerChoice(g, t, perm); var order := Candidates(g, t, perm);
      exists k :: 0 <= k < |order| && order[k] == p &&
        (forall j :: 0 <= j < |order| ==> ScoreAfter(g, t, order[j]) <= ScoreAfter(g, t, p)) &&
        (forall j :: 0 <= j < k ==> ScoreAfter(g, t, order[j]) < ScoreAfter(g, t, p))
  {
    var order := Candidates(g, t, perm);
    CandidatesSpec(g, t, perm);
    forall j | 0 <= j < |order|
      ensures !OnCorner(order[j].0, order[j].1)
    {
      assert order[j] in order;
    }
    var s := ScoreList(g, t, order);
    ChoiceWithoutCorner(g, t, perm, s);
    var k := FirstMax(s);
    forall j | 0 <= j < |order|
      ensures ScoreAfter(g, t, order[j]) <= ScoreAfter(g, t, order[k])
      ensures j < k ==> ScoreAfter(g, t, order[j]) < ScoreAfter(g, t, order[k])
    {
    }
  }

  /** Every candidate is a valid move, so the greedy choice is one that flips the most tiles. */
  lemma GreedyMaximisesFlips(g: Grid, t: Tile, p: Pos, q: Pos)
    requires IsGrid(g) && t != Empty && OnBoard(p.0, p.1) && OnBoard(q.0, q.1)
    requires ValidMove(g, t, p.0, p.1).Some? && ValidMove(g, t, q.0, q.1).Some?
    ensures ScoreAfter(g, t, p) <= ScoreAfter(g, t, q)
        <==> |ValidMove(g, t, p.0, p.1).value| <= |ValidMove(g, t, q.0, q.1).value|
  {
    ScoreAfterFlips(g, t, p);
    ScoreAfterFlips(g, t, q);
  }

  /** The first maximum is the only position that no entry exceeds and that every earlier
      entry falls short of. */
  lemma FirstMaxUnique(s: seq<int>, k: nat)
    requires k < |s|
    requires forall j :: 0 <= j < |s| ==> s[j] <= s[k]
    requires forall j :: 0 <= j < k ==> s[j] < s[k]
    ensures FirstMax(s) == k
  {
  }

  /** Plays t at p on a copy of the board and returns the computer's tile count there. */
  method ScoreMove(b: Board, t: Tile, p: Pos) returns (score: nat)
    requires b.Valid() && t != Empty && OnBoard(p.0, p.1)
    ensures score == ScoreAfter(b.Snapshot(), t, p)
  {
    var (x, y) := p;
    var dupeBoard := b.Copy();
    var _ := dupeBoard.MakeMove(t, x, y);
    var scores := dupeBoard.GetScore();
    score := scores.Of(t);
  }

  /** Scores candidate p and keeps it when it beats the best score so far: the body of the
      greedy scan, with the strict comparison that keeps the earlier candidate on a tie. */
  method Consider(b: Board, t: Tile, p: Pos, ghost sp: int, bestMove: Pos, bestScore: int)
    returns (newMove: Pos, newScore: int)
    requires b.Valid() && t != Empty && OnBoard(p.0, p.1)
    requires sp == ScoreAfter(b.Snapshot(), t, p)
    ensures sp > bestScore ==> newMove == p && newScore == sp
    ensures sp <= bestScore ==> newMove == bestMove && newScore == bestScore
  {
    newMove, newScore := bestMove, bestScore;
    var score := ScoreMove(b, t, p);
    if score > bestScore {
      newMove := p;
      newScore := score;
    }
  }

  /** Scores every candidate on a copy of the board and keeps the first one with the highest
      score; the board itself is only read. The ghost list s names the candidates' scores. */
  method Greedy(b: Board, t: Tile, order: seq<Pos>, ghost s: seq<int>) returns (bestMove: Pos)
    requires b.Valid() && t != Empty && |order| > 0 && AllOnBoard(order) && |s| == |order|
    requires forall j {:trigger ScoreAfter(b.Snapshot(), t, order[j])} ::
      0 <= j < |order| ==> s[j] == ScoreAfter(b.Snapshot(), t, order[j])
    ensures bestMove == order[FirstMax(s)]
  {
    var bestScore: int := -1;
    bestMove := order[0];
    ghost var bi := 0;
    for i := 0 to |order|
      invariant i == 0 ==> bestScore == -1
      invariant 0 < i ==> bi < i && bestMove == order[bi] && bestScore == s[bi]
      invariant 0 < i ==> (forall j :: 0 <= j < i ==> s[j] <= s[bi]) && (forall j :: 0 <= j < bi ==> s[j] < s[bi])
    {
      if s[i] > bestScore {
        bi := i;
      }
      bestMove, bestScore := Consider(b, t, order[i], s[i], bestMove, bestScore);
    }
    FirstMaxUnique(s, bi);
  }

  /** A corner candidate preceded by no other corner is the computer's choice. */
  lemma ChoiceAtCorner(g: Grid, t: Tile, perm: seq<nat>, i: nat)
    requires IsGrid(g) && t != Empty
    requires IsShuffle(perm, |ValidMoves(g, t)|) && |ValidMoves(g, t)| > 0
    requires i < |Candidates(g, t, perm)|
    requires OnCorner(Candidates(g, t, perm)[i].0, Candidates(g, t, perm)[i].1)
    requires forall j :: 0 <= j < i ==> !OnCorner(Candidates(g, t, perm)[j].0, Candidates(g, t, perm)[j].1)
    ensures ComputerChoice(g, t, perm) == Candidates(g, t, perm)[i]
  {
    var order := Candidates(g, t, perm);
    assert order[i] in order;
  }

  /** Without a corner among the candidates, the choice is the first best-scoring one. */
  lemma ChoiceWithoutCorner(g: Grid, t: Tile, perm: seq<nat>, s: seq<int>)
    requires IsGrid(g) && t != Empty
    requires IsShuffle(perm, |ValidMoves(g, t)|) && |ValidMoves(g, t)| > 0
    requires forall j :: 0 <= j < |Candidates(g, t, perm)| ==>
      !OnCorner(Candidates(g, t, perm)[j].0, Candidates(g, t, perm)[j].1)
    requires |s| == |Candidates(g, t, perm)|
    requires forall j {:trigger ScoreAfter(g, t, Candidates(g, t, perm)[j])} :: 0 <= j < |s| ==>
      s[j] == ScoreAfter(g, t, Candidates(g, t, perm)[j])
    ensures ComputerChoice(g, t, perm) == Candidates(g, t, perm)[FirstMax(s)]
  {
    var order := Candidates(g, t, perm);
    ScoresAre(g, t, order, s);
    if FirstCorner(order).Some? {
      assert false;
    }
  }

  /** The computer's move for t: the valid moves are listed, rearranged by perm (the random
      shuffle), and the first corner is taken; each non-corner candidate passed on the way
      recomputes the greedy choice, which is returned when no corner turns up. */
  method ComputerMove(b: Board, t: Tile, perm: seq<nat>) returns (move: Pos)
    requires b.Valid() && t != Empty
    requires IsShuffle(perm, |ValidMoves(b.Snapshot(), t)|) && |ValidMoves(b.Snapshot(), t)| > 0
    modifies b.cells
    ensures b.Snapshot() == old(b.Snapshot())
    ensures move == ComputerChoice(old(b.Snapshot()), t, perm)
  {
    ghost var g := b.Snapshot();
    var possibleMoves := b.GetValidMoves(t);
    possibleMoves := Shuffle(possibleMoves, perm);
    ghost var s := ScoreList(g, t, possibleMoves);
    var bestMove := possibleMoves[0];
    for i := 0 to |possibleMoves|
      invariant forall j :: 0 <= j < i ==> !OnCorner(possibleMoves[j].0, possibleMoves[j].1)
      invariant 0 < i ==> bestMove == possibleMoves[FirstMax(s)]
      modifies {}
    {
      var (x, y) := possibleMoves[i];
      if OnCorner(x, y) {
        ChoiceAtCorner(g, t, perm, i);
        return (x, y);
      }
      bestMove := Greedy(b, t, possibleMoves, s);
    }
    ChoiceWithoutCorner(g, t, perm, s);
    return bestMove;
  }
}
