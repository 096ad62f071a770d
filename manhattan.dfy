/**
 The heuristic of the best-first search: the sum, over all nine values
 (the blank included), of the Manhattan distance between the value's cell
 on a board and its cell on the goal board.
 */
module Manhattan {
  import opened Grid

  /** The goal board holds every value, so the goal-side scan always succeeds. */
  lemma GoalHasAllTiles()
    ensures HasAllTiles(GoalState)
  {
    GoalIsPermutation();
  }

  /**
   The goal cell of each value: 1 2 3 / 8 _ 4 / 7 6 5. The heuristic is
   stated with these cells so that the verifier does not rescan the
   constant goal board in every proof; GoalCoordIsScan shows that they are
   the cells find_goalstate_coord returns.
   */
  function GoalCoord(v: int): Coord
    requires 0 <= v < 9
  {
    if v == 0 then Coord(1, 1)
    else if v == 1 then Coord(0, 0)
    else if v == 2 then Coord(0, 1)
    else if v == 3 then Coord(0, 2)
    else if v == 4 then Coord(1, 2)
    else if v == 5 then Coord(2, 2)
    else if v == 6 then Coord(2, 1)
    else if v == 7 then Coord(2, 0)
    else Coord(1, 0)
  }

  /** Scanning the goal board for v finds GoalCoord(v). */
  lemma GoalCoordIsScan(v: int)
    requires 0 <= v < 9
    ensures HasAllTiles(GoalState) && FindGoalstateCoord(GoalState, v) == GoalCoord(v)
  {
    GoalIsPermutation();
    assert GoalState[Cell(GoalCoord(v))] == v;
    FindInPermutation(GoalState, GoalCoord(v));
  }

  /** Distance of value v from its goal cell: one term of the heuristic's sum. */
  function TileDistance(b: Board, v: int): nat
    requires HasAllTiles(b) && 0 <= v < 9
  {
    var c := FindGoalstateCoord(b, v);
    var g := GoalCoord(v);
    Abs(c.row - g.row) + Abs(c.col - g.col)
  }

  /** The sum of the terms for the values 0 .. n - 1, in the order the loop adds them. */
  function HeuristicUpTo(b: Board, n: int): nat
    requires HasAllTiles(b) && 0 <= n <= 9
  {
    if n == 0 then 0 else HeuristicUpTo(b, n - 1) + TileDistance(b, n - 1)
  }

  /**
   heuristic: the full sum over the values 0..8 (|b| is 9; writing it so
   keeps the verifier from evaluating the sum on constant boards).
   */
  function HeuristicOf(b: Board): nat
    requires HasAllTiles(b)
  {
    HeuristicUpTo(b, |b|)
  }

  /** A partial sum is zero exactly when each of its terms is. */
  lemma {:induction false} HeuristicUpToZero(b: Board, n: int)
    requires HasAllTiles(b) && 0 <= n <= 9
    ensures HeuristicUpTo(b, n) == 0 <==> forall v :: 0 <= v < n ==> TileDistance(b, v) == 0
  {
    if n > 0 {
      HeuristicUpToZero(b, n - 1);
    }
  }

  /** On the goal board every term is zero. */
  lemma {:induction false} GoalTermsZero(n: int)
    requires 0 <= n <= 9
    ensures HasAllTiles(GoalState) && HeuristicUpTo(GoalState, n) == 0
  {
    GoalHasAllTiles();
    if n > 0 {
      GoalTermsZero(n - 1);
      GoalCoordIsScan(n - 1);
    }
  }

  /** A board whose every value sits at its goal cell is the goal board. */
  lemma AllInPlaceIsGoal(b: Board)
    requires HasAllTiles(b)
    requires forall v :: 0 <= v < 9 ==> TileDistance(b, v) == 0
    ensures b == GoalState
  {
    GoalIsPermutation();
    forall k | 0 <= k < 9 ensures b[k] == GoalState[k] {
      var v := GoalState[k];
      assert TileDistance(b, v) == 0;
      GoalCoordIsScan(v);
      FindInPermutation(GoalState, CoordOf(k));
      assert FindGoalstateCoord(b, v) == CoordOf(k);
    }
  }

  /**
   The heuristic is zero exactly on the goal board: every value sits in
   its goal cell if and only if the board is the goal.
   */
  lemma HeuristicZeroIffGoal(b: Board)
    requires HasAllTiles(b)
    ensures HeuristicOf(b) == 0 <==> b == GoalState
  {
    if b == GoalState {
      GoalTermsZero(9);
    } else if HeuristicOf(b) == 0 {
      HeuristicUpToZero(b, 9);
      AllInPlaceIsGoal(b);
    }
  }
}
