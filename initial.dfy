/**
 The first expansion from the fixed initial board 2 8 3 / 1 6 4 / 7 _ 5:
 its blank has three legal moves, so both searches register exactly three
 children, each tagged one deeper than the initial board.
 */
module Initial {
  import opened Grid
  import opened Manhattan
  import opened Store
  import opened Frontier
  import opened Enqueue
  import opened Puzzle

  /** The initial board after the 6 above the blank slides down: 2 8 3 / 1 _ 4 / 7 6 5. */
  const InitUp: Board := [2, 8, 3, 1, 0, 4, 7, 6, 5]
  /** After the 7 left of the blank slides right: 2 8 3 / 1 6 4 / _ 7 5. */
  const InitLeft: Board := [2, 8, 3, 1, 6, 4, 0, 7, 5]
  /** After the 5 right of the blank slides left: 2 8 3 / 1 6 4 / 7 5 _. */
  const InitRight: Board := [2, 8, 3, 1, 6, 4, 7, 5, 0]

  /**
   The blank of the initial board is at (2, 1); its moves are up, left and
   right, giving these three candidate children, in that order.
   */
  lemma InitChildren()
    ensures HasAllTiles(InitState) && FindGoalstateCoord(InitState, 0) == Coord(2, 1)
    ensures LegalMoves(Coord(2, 1)) == [Coord(1, 1), Coord(2, 0), Coord(2, 2)]
    ensures Children(InitState) == [InitUp, InitLeft, InitRight]
  {
    InitIsPermutation();
    FindInPermutation(InitState, Coord(2, 1));
    LegalMovesUnfold(Coord(2, 1));
    var kids := Children(InitState);
    assert kids[0] == Slide(InitState, Coord(2, 1), Coord(1, 1)) == InitUp;
    assert kids[1] == Slide(InitState, Coord(2, 1), Coord(2, 0)) == InitLeft;
    assert kids[2] == Slide(InitState, Coord(2, 1), Coord(2, 2)) == InitRight;
  }

  /** None of the three children is the initial board or another child: all are registered. */
  lemma InitChildrenAllNew()
    ensures HasAllTiles(InitState) && Appended([InitState], Children(InitState)) == [InitUp, InitLeft, InitRight]
  {
    InitChildren();
    var kids := [InitUp, InitLeft, InitRight];
    assert kids[..0] == [] && kids[..1] == [InitUp] && kids[..2] == [InitUp, InitLeft];
    assert InitUp != InitState && InitLeft != InitState && InitRight != InitState;
    assert InitLeft != InitUp && InitRight != InitUp && InitRight != InitLeft;
    assert Appended([InitState], kids[..1]) == [InitUp];
    assert Appended([InitState], kids[..2]) == [InitUp, InitLeft];
  }

  /**
   Expanding the initial board when it is the only stored board, with tag
   1 (as depth_first_search does at depth 0 and best_first_search does
   with depthidx 0): the three children are appended, in move order, each
   at depth 1 and with the initial board as parent.
   */
  lemma FirstExpansion(p0: seq<nat>, s: seq<Board>, d: seq<nat>, p: seq<nat>, lc: seq<Board>)
    requires Expansion([InitState], [0], p0, 0, 1, s, d, p, lc)
    ensures lc == [InitUp, InitLeft, InitRight]
    ensures s == [InitState, InitUp, InitLeft, InitRight]
    ensures d == [0, 1, 1, 1] && p == p0 + [0, 0, 0]
  {
    InitChildrenAllNew();
    RepeatThree(1);
    RepeatThree(0);
  }

  /** Three equal tags. */
  lemma RepeatThree(x: nat)
    ensures Repeat(x, 3) == [x, x, x]
  {
  }

  /**
   The heuristic's partial sum for a board whose value v sits at cells[v]:
   the distances of those cells from the goal cells of 0 .. n - 1.
   */
  function DistanceSum(cells: seq<Coord>, n: nat): nat
    requires n <= |cells| && n <= 9
  {
    if n == 0 then 0
    else DistanceSum(cells, n - 1) + Abs(cells[n - 1].row - GoalCoord(n - 1).row) + Abs(cells[n - 1].col - GoalCoord(n - 1).col)
  }

  /** Where each value sits on a legal board: cells[v] holds v. */
  ghost predicate Locates(b: Board, cells: seq<Coord>)
  {
    |b| == 9 && |cells| == 9 && forall v :: 0 <= v < 9 ==> InGrid(cells[v]) && b[Cell(cells[v])] == v
  }

  /** On a legal board, the heuristic's partial sums are the distance sums of the cells that hold the values. */
  lemma {:induction false} HeuristicUpToCells(b: Board, cells: seq<Coord>, n: nat)
    requires IsPermutation(b) && Locates(b, cells) && n <= 9
    ensures HasAllTiles(b) && HeuristicUpTo(b, n) == DistanceSum(cells, n)
  {
    if n > 0 {
      HeuristicUpToCells(b, cells, n - 1);
      FindInPermutation(b, cells[n - 1]);
    }
  }

  /** The heuristic of a legal board is the distance sum of the cells that hold its values. */
  lemma HeuristicOfCells(b: Board, cells: seq<Coord>)
    requires IsPermutation(b) && Locates(b, cells)
    ensures HasAllTiles(b) && HeuristicOf(b) == DistanceSum(cells, 9)
  {
    HeuristicUpToCells(b, cells, 9);
  }

  /** Where the values 0 .. 8 sit on the initial board. */
  const InitCells: seq<Coord> :=
    [Coord(2, 1), Coord(1, 0), Coord(0, 0), Coord(0, 2), Coord(1, 2), Coord(2, 2), Coord(1, 1), Coord(2, 0), Coord(0, 1)]

  /** Where the values 0 .. 8 sit on the first child. */
  const UpCells: seq<Coord> :=
    [Coord(1, 1), Coord(1, 0), Coord(0, 0), Coord(0, 2), Coord(1, 2), Coord(2, 2), Coord(2, 1), Coord(2, 0), Coord(0, 1)]

  /** The distances of the initial board's cells from the goal cells add up to 6. */
  lemma InitCellsDistance()
    ensures DistanceSum(InitCells, 9) == 6
  {
  }

  /** The distances of the first child's cells from the goal cells add up to 4. */
  lemma UpCellsDistance()
    ensures DistanceSum(UpCells, 9) == 4
  {
  }

  /**
   The cells of the initial board. The board is a parameter equal to the
   constant, here and below, so that the verifier does not evaluate the
   heuristic's scans on the constant itself.
   */
  lemma InitLocates(b: Board)
    requires b == InitState
    ensures Locates(b, InitCells)
  {
    assert b[7] == 0 && b[3] == 1 && b[0] == 2 && b[2] == 3 && b[5] == 4;
    assert b[8] == 5 && b[4] == 6 && b[6] == 7 && b[1] == 8;
    forall v | 0 <= v < 9 ensures InGrid(InitCells[v]) && b[Cell(InitCells[v])] == v {
    }
  }

  /** The cells of the first child. */
  lemma UpLocates(b: Board)
    requires b == InitUp
    ensures Locates(b, UpCells)
  {
    assert b[4] == 0 && b[3] == 1 && b[0] == 2 && b[2] == 3 && b[5] == 4;
    assert b[8] == 5 && b[7] == 6 && b[6] == 7 && b[1] == 8;
    forall v | 0 <= v < 9 ensures InGrid(UpCells[v]) && b[Cell(UpCells[v])] == v {
    }
  }

  /** The heuristic of the initial board is 6: one each for 0, 1, 2 and 6, two for 8. */
  lemma InitHeuristic(b: Board)
    requires b == InitState
    ensures HasAllTiles(b) && HeuristicOf(b) == 6
  {
    InitIsPermutation();
    InitLocates(b);
    InitCellsDistance();
    HeuristicOfCells(b, InitCells);
  }

  /** The first child is a legal board. */
  lemma InitUpPermutation(b: Board)
    requires b == InitUp
    ensures IsPermutation(b)
  {
    assert b[4] == 0 && b[3] == 1 && b[0] == 2 && b[2] == 3 && b[5] == 4;
    assert b[8] == 5 && b[7] == 6 && b[6] == 7 && b[1] == 8;
  }

  /** The heuristic of the first child is 4: one each for 1 and 2, two for 8. */
  lemma InitUpHeuristic(b: Board)
    requires b == InitUp
    ensures HasAllTiles(b) && HeuristicOf(b) == 4
  {
    InitUpPermutation(b);
    UpLocates(b);
    UpCellsDistance();
    HeuristicOfCells(b, UpCells);
  }

  /** The store after the first expansion holds legal boards only. */
  lemma FirstStoreLegal(s: seq<Board>)
    requires s == [InitState, InitUp, InitLeft, InitRight]
    ensures AllLegal(s)
  {
    InitIsPermutation();
    InitUpPermutation(s[1]);
    InitLeftPermutation(s[2]);
    InitRightPermutation(s[3]);
    AllLegalAppend([], s);
    assert [] + s == s;
  }

  /** The second child is a legal board. */
  lemma InitLeftPermutation(b: Board)
    requires b == InitLeft
    ensures IsPermutation(b)
  {
    assert b[6] == 0 && b[3] == 1 && b[0] == 2 && b[2] == 3 && b[5] == 4;
    assert b[8] == 5 && b[4] == 6 && b[7] == 7 && b[1] == 8;
  }

  /** The third child is a legal board. */
  lemma InitRightPermutation(b: Board)
    requires b == InitRight
    ensures IsPermutation(b)
  {
    assert b[8] == 0 && b[3] == 1 && b[0] == 2 && b[2] == 3 && b[5] == 4;
    assert b[7] == 5 && b[4] == 6 && b[6] == 7 && b[1] == 8;
  }

  /**
   best_first_search queues a child with its heuristic alone as priority,
   not heuristic plus depth: the seed's priority is 6 + 0, and the first
   turn of the child loop after expanding the initial board queues its
   first child, at depth 1, with priority 4 rather than 4 + 1. The
   priorities taken from the queue therefore need not grow, and an entry's
   priority is not always its heuristic plus its g.
   */
  lemma FirstEntries(s: seq<Board>, d: seq<nat>)
    requires |d| == |s| && AllLegal(s) && |s| >= 2 && s[0] == InitState && s[1] == InitUp && d[0] == 0 && d[1] == 1
    ensures HeuristicOf(s[0]) + d[0] == 6
    ensures Enqueued(s, d, [s[0]], s[1..2]) == [Entry(4, 1, s[1])]
  {
    InitUpDiffers();
    assert s[0] != s[1];
    FirstIndexAt(s, 1);
    assert s[1..2] == [s[1]];
    EnqueuedSingle(s, d, [s[0]], s[1]);
    InitHeuristic(s[0]);
    InitUpHeuristic(s[1]);
  }

  /** The first child differs from the initial board (in its centre cell). */
  lemma InitUpDiffers()
    ensures InitState != InitUp
  {
    assert InitState[4] != InitUp[4];
  }

  /** The first index of the board at k is k when no earlier position holds it. */
  lemma FirstIndexAt<T>(s: seq<T>, k: nat)
    requires k < |s| && forall j :: 0 <= j < k ==> s[j] != s[k]
    ensures FirstIndex(s, s[k]) == k
  {
    var i := FirstIndex(s, s[k]);
    FirstIndexIsFirst(s, s[k]);
    assert s[i] == s[k];
    assert k <= i;
  }

  /** A single candidate that is not closed is queued with its entry. */
  lemma EnqueuedSingle(s: seq<Board>, d: seq<nat>, c: seq<Board>, b: Board)
    requires |d| == |s| && AllLegal(s) && b in s && b !in c
    ensures Enqueued(s, d, c, [b]) == [ChildEntry(s, d, b)]
  {
    assert [b][..0] == [];
  }

  /**
   The first turn of best_first_search from a fresh puzzle: the seed is
   queued with priority 6, the initial board is taken, closed and expanded
   into three children at depth 1, and the first of them is queued as
   (4, 1, child): its priority is below the seed's and is not its
   heuristic plus its depth.
   */
  lemma FirstBestFirstTurn(p0: seq<nat>, s: seq<Board>, d: seq<nat>, p: seq<nat>, lc: seq<Board>)
    requires Expansion([InitState], [0], p0, 0, 1, s, d, p, lc)
    ensures AllLegal(s) && HeuristicOf(s[0]) + d[0] == 6
    ensures lc == [InitUp, InitLeft, InitRight] && d == [0, 1, 1, 1]
    ensures Enqueued(s, d, [InitState], lc[..1]) == [Entry(4, 1, InitUp)]
  {
    FirstExpansion(p0, s, d, p, lc);
    FirstStoreLegal(s);
    FirstEntries(s, d);
    TakeOne(lc);
    TakeOne(s[1..]);
    assert s[1..][..1] == s[1..2];
  }

  /** The one-element prefix of a list. */
  lemma TakeOne<T>(a: seq<T>)
    requires |a| >= 1
    ensures a[..1] == [a[0]]
  {
  }
}
