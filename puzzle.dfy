/**
 * Board arithmetic of the sliding-tile puzzle: the flat board, the grid side,
 * the two heuristic costs, move legality and the boards one blank move away.
 * Everything here is a pure function of the board; the State class (state.dfy)
 * computes the same values with the source's loops.
 */
module Puzzle {

  /** The four moves of the blank, in the order the successor generator visits them. */
  datatype Direction = Up | Down | Left | Right

  const Directions: seq<Direction> := [Up, Down, Left, Right]

  /** The two heuristic evaluators a search can be run with. */
  datatype HeuristicMethod = ManhattanDistance | MisplacedTiles

  /** The value that marks the blank cell. */
  const Blank: int := -1

  function Abs(x: int): nat {
    if x < 0 then -x else x
  }

  // ---------------------------------------------------------------------------
  // Grid side: the integer square root of the board length
  // ---------------------------------------------------------------------------

  /** The largest s <= r whose square does not exceed n. */
  function SqrtAtMost(n: nat, r: nat): (s: nat)
    requires n < (r + 1) * (r + 1)
    ensures s <= r
    ensures s * s <= n < (s + 1) * (s + 1)
    decreases r
  {
    if r * r <= n then r else SqrtAtMost(n, r - 1)
  }

  /** The grid side the source computes as (int) Math.Sqrt(Nodes.Length). */
  function GridSide(n: nat): (s: nat)
    ensures s * s <= n < (s + 1) * (s + 1)
  {
    assert n < (n + 1) * (n + 1) by {
      assert (n + 1) * (n + 1) == n * n + 2 * n + 1;
    }
    SqrtAtMost(n, n)
  }

  lemma MulMonotone(a: int, b: int, c: int)
    requires 0 <= c && a <= b
    ensures a * c <= b * c
  {
  }

  lemma DivMod(s: int, L: int)
    requires L >= 1
    ensures s == (s / L) * L + s % L
    ensures 0 <= s % L < L
  {
  }

  lemma {:induction false} SquareRootUnique(s: nat, L: nat)
    requires s * s <= L * L < (s + 1) * (s + 1)
    ensures s == L
  {
    if s < L {
      MulMonotone(s + 1, L, s + 1);
      MulMonotone(s + 1, L, L);
    } else if s > L {
      MulMonotone(L + 1, s, L + 1);
      MulMonotone(L + 1, s, s);
    }
  }

  /** On a board of L*L cells the computed grid side is L. */
  lemma GridSideOfSquare(L: nat)
    ensures GridSide(L * L) == L
  {
    SquareRootUnique(GridSide(L * L), L);
  }

  /** A board length the source can work with: a perfect square with side at least 2. */
  predicate IsSquareBoard(n: nat) {
    GridSide(n) >= 2 && GridSide(n) * GridSide(n) == n
  }

  /** Row, column and neighbour arithmetic on a grid of side L. */
  lemma GridFacts(s: int, L: int)
    requires L >= 1 && 0 <= s < L * L
    ensures s == (s / L) * L + s % L
    ensures 0 <= s % L < L && 0 <= s / L < L
    ensures s >= L <==> s / L > 0
    ensures s + L < L * L <==> s / L < L - 1
    ensures (s / L - 1) * L + s % L == s - L
    ensures (s / L + 1) * L + s % L == s + L
  {
    var q, r := s / L, s % L;
    DivMod(s, L);
    if q < 0 {
      MulMonotone(q, -1, L);
    }
    if q >= L {
      MulMonotone(L, q, L);
    }
    if q >= 1 {
      MulMonotone(1, q, L);
    }
    if q <= L - 2 {
      MulMonotone(q, L - 2, L);
      assert (L - 2) * L == L * L - 2 * L;
    }
    if q == L - 1 {
      assert q * L == L * L - L;
    }
    assert (q - 1) * L == q * L - L;
    assert (q + 1) * L == q * L + L;
  }

  // ---------------------------------------------------------------------------
  // Boards
  // ---------------------------------------------------------------------------

  /** Every cell holds the blank or a tile number 1..n-1. */
  predicate InRange(b: seq<int>) {
    forall i :: 0 <= i < |b| ==> b[i] == Blank || 1 <= b[i] < |b|
  }

  predicate Distinct(b: seq<int>) {
    forall i, j :: 0 <= i < j < |b| ==> b[i] != b[j]
  }

  /** A board the search is defined on: square, tiles 1..n-1 once each and one blank. */
  predicate WellFormed(b: seq<int>) {
    IsSquareBoard(|b|) && InRange(b) && Distinct(b) && Blank in b
  }

  /** The solved arrangement 1, 2, ..., n-1, blank. */
  function Solved(n: nat): (b: seq<int>)
    ensures |b| == n
  {
    seq(n, i requires 0 <= i < n => if i == n - 1 then Blank else i + 1)
  }

  /** The index the value at cell i belongs at: value - 1, the blank belonging at the last cell. */
  function Target(b: seq<int>, i: nat): int
    requires i < |b|
  {
    if b[i] - 1 == -2 then |b| - 1 else b[i] - 1
  }

  predicate AllPlaced(b: seq<int>) {
    forall i :: 0 <= i < |b| ==> Target(b, i) == i
  }

  // ---------------------------------------------------------------------------
  // Heuristic costs
  // ---------------------------------------------------------------------------

  /** Number of misplaced cells among the first k (the blank included). */
  function MisplacedUpTo(b: seq<int>, k: nat): (c: nat)
    requires k <= |b|
    ensures c <= k
  {
    if k == 0 then 0
    else MisplacedUpTo(b, k - 1) + (if Target(b, k - 1) != k - 1 then 1 else 0)
  }

  function MisplacedTilesCost(b: seq<int>): (c: nat)
    ensures c <= |b|
  {
    MisplacedUpTo(b, |b|)
  }

  /** Row plus column distance between cell i and the cell its value belongs at. */
  function CellDistance(b: seq<int>, i: nat): nat
    requires i < |b| && InRange(b)
  {
    var L := GridSide(|b|);
    var v := Target(b, i);
    Abs(v / L - i / L) + Abs(v % L - i % L)
  }

  /** Sum of the distances of the misplaced cells among the first k. */
  function ManhattanUpTo(b: seq<int>, k: nat): nat
    requires k <= |b| && InRange(b)
  {
    if k == 0 then 0
    else ManhattanUpTo(b, k - 1) + (if Target(b, k - 1) != k - 1 then CellDistance(b, k - 1) else 0)
  }

  function ManhattanDistanceCost(b: seq<int>): nat
    requires InRange(b)
  {
    ManhattanUpTo(b, |b|)
  }

  function HeuristicCost(m: HeuristicMethod, b: seq<int>): nat
    requires InRange(b)
  {
    match m
    case ManhattanDistance => ManhattanDistanceCost(b)
    case MisplacedTiles => MisplacedTilesCost(b)
  }

  /** A misplaced cell is at least one row or one column away from where it belongs. */
  lemma MisplacedCellIsApart(b: seq<int>, i: nat)
    requires i < |b| && InRange(b) && Target(b, i) != i
    ensures CellDistance(b, i) >= 1
  {
    var L := GridSide(|b|);
    var v := Target(b, i);
    DivMod(v, L);
    DivMod(i, L);
    if v / L == i / L && v % L == i % L {
      assert false;
    }
  }

  lemma {:induction false} ManhattanDominatesMisplacedUpTo(b: seq<int>, k: nat)
    requires k <= |b| && InRange(b)
    ensures ManhattanUpTo(b, k) >= MisplacedUpTo(b, k)
  {
    if k > 0 {
      ManhattanDominatesMisplacedUpTo(b, k - 1);
      if Target(b, k - 1) != k - 1 {
        MisplacedCellIsApart(b, k - 1);
      }
    }
  }

  /** On a board in range, the Manhattan cost is never below the misplaced-tiles cost. */
  lemma ManhattanDominatesMisplaced(b: seq<int>)
    requires InRange(b)
    ensures ManhattanDistanceCost(b) >= MisplacedTilesCost(b)
  {
    ManhattanDominatesMisplacedUpTo(b, |b|);
  }

  lemma {:induction false} MisplacedZeroIffPlaced(b: seq<int>, k: nat)
    requires k <= |b|
    ensures MisplacedUpTo(b, k) == 0 <==> forall i :: 0 <= i < k ==> Target(b, i) == i
  {
    if k > 0 {
      MisplacedZeroIffPlaced(b, k - 1);
    }
  }

  lemma {:induction false} ManhattanZeroIffPlaced(b: seq<int>, k: nat)
    requires k <= |b| && InRange(b)
    ensures ManhattanUpTo(b, k) == 0 <==> forall i :: 0 <= i < k ==> Target(b, i) == i
  {
    if k > 0 {
      ManhattanZeroIffPlaced(b, k - 1);
      if Target(b, k - 1) != k - 1 {
        MisplacedCellIsApart(b, k - 1);
      }
    }
  }

  /** On a board in range, every cell is in place exactly when it is the solved board. */
  lemma PlacedIffSolved(b: seq<int>)
    requires InRange(b)
    ensures AllPlaced(b) <==> b == Solved(|b|)
  {
    var n := |b|;
    if AllPlaced(b) {
      forall i | 0 <= i < n
        ensures b[i] == Solved(n)[i]
      {
        assert Target(b, i) == i;
      }
    }
  }

  /** Under either heuristic the cost is zero exactly on the solved board. */
  lemma HeuristicZeroIffSolved(m: HeuristicMethod, b: seq<int>)
    requires InRange(b)
    ensures HeuristicCost(m, b) == 0 <==> b == Solved(|b|)
  {
    PlacedIffSolved(b);
    match m
    case ManhattanDistance => ManhattanZeroIffPlaced(b, |b|);
    case MisplacedTiles => MisplacedZeroIffPlaced(b, |b|);
  }

  // ---------------------------------------------------------------------------
  // Moves
  // ---------------------------------------------------------------------------

  /**
   * The cell next to s in the given direction on a board of n cells, by index
   * arithmetic: (true, index), or (false, -1) when s is on that side's border.
   */
  function Neighbour(direction: Direction, s: int, n: nat): (r: (bool, int))
    requires IsSquareBoard(n) && 0 <= s < n
    ensures r.0 <==> r.1 != -1
    ensures r.0 ==> 0 <= r.1 < n
  {
    var L := GridSide(n);
    GridFacts(s, L);
    match direction
    case Up => if s >= L then (true, s - L) else (false, -1)
    case Down => if s + L < n then (true, s + L) else (false, -1)
    case Left => if s % L != 0 then (true, s - 1) else (false, -1)
    case Right => if s % L != L - 1 then (true, s + 1) else (false, -1)
  }

  /**
   * Where the blank at spaceIndex lands when moved in the given direction, by
   * row and column arithmetic: the neighbouring cell, or (false, -1) when the
   * move would leave the grid.
   */
  function CanMove(direction: Direction, spaceIndex: int, n: nat): (r: (bool, int))
    requires IsSquareBoard(n) && 0 <= spaceIndex < n
    ensures r == Neighbour(direction, spaceIndex, n)
  {
    var gridX := GridSide(n);
    GridFacts(spaceIndex, gridX);
    var currentX := spaceIndex % gridX;
    var currentY := spaceIndex / gridX;
    var (newX, newY) :=
      match direction
      case Up => if currentY != 0 then (currentX, currentY - 1) else (-1, -1)
      case Down => if currentY < gridX - 1 then (currentX, currentY + 1) else (-1, -1)
      case Left => if currentX != 0 then (currentX - 1, currentY) else (-1, -1)
      case Right => if currentX < gridX - 1 then (currentX + 1, currentY) else (-1, -1);
    var newPosition := if newX != -1 && newY != -1 then newY * gridX + newX else -1;
    (newPosition != -1, newPosition)
  }

  /** The board b with cells i and j exchanged. */
  function Swapped(b: seq<int>, i: int, j: int): (r: seq<int>)
    requires 0 <= i < |b| && 0 <= j < |b|
    ensures |r| == |b| && multiset(r) == multiset(b)
  {
    b[i := b[j]][j := b[i]]
  }

  /** The board reached by one move in direction d, if the move is legal. */
  function MoveBoard(b: seq<int>, space: int, d: Direction): seq<seq<int>>
    requires IsSquareBoard(|b|) && 0 <= space < |b|
  {
    var (ok, position) := Neighbour(d, space, |b|);
    if ok then [Swapped(b, space, position)] else []
  }

  /** The boards reached by the legal moves among the first d directions, in that order. */
  function SuccessorsUpTo(b: seq<int>, space: int, d: nat): (r: seq<seq<int>>)
    requires IsSquareBoard(|b|) && 0 <= space < |b| && d <= |Directions|
    ensures |r| <= d
  {
    if d == 0 then [] else SuccessorsUpTo(b, space, d - 1) + MoveBoard(b, space, Directions[d - 1])
  }

  /** The boards reached by the legal moves, in the order Up, Down, Left, Right. */
  function SuccessorBoards(b: seq<int>, space: int): seq<seq<int>>
    requires IsSquareBoard(|b|) && 0 <= space < |b|
  {
    SuccessorsUpTo(b, space, |Directions|)
  }

  /** Number of sides of the grid the cell at index s touches. */
  function BorderSides(s: int, L: int): nat
    requires L >= 1
  {
    (if s / L == 0 then 1 else 0) + (if s / L == L - 1 then 1 else 0) +
    (if s % L == 0 then 1 else 0) + (if s % L == L - 1 then 1 else 0)
  }

  /**
   * The blank has one legal move per side of the grid it does not touch: two in
   * a corner, three on an edge, four in the interior.
   */
  lemma SuccessorCount(b: seq<int>, space: int)
    requires IsSquareBoard(|b|) && 0 <= space < |b|
    ensures var L := GridSide(|b|);
      && |SuccessorBoards(b, space)| == 4 - BorderSides(space, L)
      && 2 <= |SuccessorBoards(b, space)| <= 4
  {
    var L := GridSide(|b|);
    GridFacts(space, L);
    SuccessorsInOrder(b, space);
    assert |MoveBoard(b, space, Up)| == if space / L == 0 then 0 else 1;
    assert |MoveBoard(b, space, Down)| == if space / L == L - 1 then 0 else 1;
    assert |MoveBoard(b, space, Left)| == if space % L == 0 then 0 else 1;
    assert |MoveBoard(b, space, Right)| == if space % L == L - 1 then 0 else 1;
  }

  /** The successor boards are the legal moves Up, Down, Left, Right in that order. */
  lemma SuccessorsInOrder(b: seq<int>, space: int)
    requires IsSquareBoard(|b|) && 0 <= space < |b|
    ensures SuccessorBoards(b, space) ==
      MoveBoard(b, space, Up) + MoveBoard(b, space, Down) + MoveBoard(b, space, Left) + MoveBoard(b, space, Right)
  {
    assert SuccessorsUpTo(b, space, 1) == MoveBoard(b, space, Up);
    assert SuccessorsUpTo(b, space, 2) == SuccessorsUpTo(b, space, 1) + MoveBoard(b, space, Down);
    assert SuccessorsUpTo(b, space, 3) == SuccessorsUpTo(b, space, 2) + MoveBoard(b, space, Left);
  }

  lemma MoveIsSuccessor(b: seq<int>, space: int, d: Direction)
    requires IsSquareBoard(|b|) && 0 <= space < |b| && Neighbour(d, space, |b|).0
    ensures Swapped(b, space, Neighbour(d, space, |b|).1) in SuccessorBoards(b, space)
  {
    SuccessorsInOrder(b, space);
    assert Swapped(b, space, Neighbour(d, space, |b|).1) in MoveBoard(b, space, d);
  }

  /** Exchanging two cells keeps a board well formed. */
  lemma SwapKeepsWellFormed(b: seq<int>, i: int, j: int)
    requires WellFormed(b) && 0 <= i < |b| && 0 <= j < |b|
    ensures WellFormed(Swapped(b, i, j))
  {
    var r := Swapped(b, i, j);
    assert Blank in multiset(b);
    assert Blank in multiset(r);
  }

  /**
   * Every successor board is well formed, has b's length and differs from b.
   */
  lemma {:induction false} SuccessorBoardsWellFormed(b: seq<int>, space: int, d: nat)
    requires WellFormed(b) && 0 <= space < |b| && b[space] == Blank && d <= |Directions|
    ensures forall r :: r in SuccessorsUpTo(b, space, d) ==> WellFormed(r) && |r| == |b| && r != b
  {
    if d != 0 {
      SuccessorBoardsWellFormed(b, space, d - 1);
      var m := MoveBoard(b, space, Directions[d - 1]);
      assert SuccessorsUpTo(b, space, d) == SuccessorsUpTo(b, space, d - 1) + m;
      var (ok, position) := Neighbour(Directions[d - 1], space, |b|);
      if ok {
        assert m == [Swapped(b, space, position)];
        SwapKeepsWellFormed(b, space, position);
        assert Swapped(b, space, position)[space] != Blank;
      } else {
        assert m == [];
      }
    }
  }


  // ---------------------------------------------------------------------------
  // Reachability
  // ---------------------------------------------------------------------------

  /** b2 is one blank move from b: the board of a legal move of a blank of b. */
  ghost predicate Step(b: seq<int>, b2: seq<int>) {
    && IsSquareBoard(|b|)
    && exists s :: 0 <= s < |b| && b[s] == Blank && b2 in SuccessorBoards(b, s)
  }

  /** A sequence of boards, each one blank move from the one before. */
  ghost predicate Walk(p: seq<seq<int>>) {
    forall i :: 0 <= i < |p| - 1 ==> Step(p[i], p[i + 1])
  }

  /** b can be reached from start by a walk of blank moves. */
  ghost predicate Reachable(start: seq<int>, b: seq<int>) {
    exists p :: Walk(p) && 1 <= |p| && p[0] == start && p[|p| - 1] == b
  }

  /** Every board of S is unsolved and reachable from start. */
  ghost predicate UnsolvedReachable(S: set<seq<int>>, start: seq<int>) {
    forall b :: b in S ==> b != Solved(|b|) && Reachable(start, b)
  }

  /** No blank move leads out of K. */
  ghost predicate ClosedUnderMoves(K: set<seq<int>>) {
    forall b, b2 :: b in K && Step(b, b2) ==> b2 in K
  }

  /** A well-formed board has a single blank, so its moves are the successor boards of that blank. */
  lemma StepIsSuccessor(b: seq<int>, space: int, b2: seq<int>)
    requires WellFormed(b) && 0 <= space < |b| && b[space] == Blank
    ensures Step(b, b2) <==> b2 in SuccessorBoards(b, space)
  {
    if Step(b, b2) {
      var s :| 0 <= s < |b| && b[s] == Blank && b2 in SuccessorBoards(b, s);
      assert s == space;
    }
  }

  /** A walk that starts in a set closed under moves stays in it. */
  lemma {:induction false} WalkStaysIn(K: set<seq<int>>, p: seq<seq<int>>, i: nat)
    requires ClosedUnderMoves(K) && Walk(p) && 1 <= |p| && p[0] in K && i < |p|
    ensures p[i] in K
    decreases i
  {
    if i > 0 {
      WalkStaysIn(K, p, i - 1);
      assert Step(p[i - 1], p[i]);
    }
  }

}
