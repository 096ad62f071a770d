/**
 Board geometry of the 3x3 sliding-tile puzzle.

 A board is the 3x3 grid flattened row by row: the cell at (row, col) is
 index 3 * row + col. Value 0 is the blank.
 */
module Grid {

  type Board = seq<int>

  /** A (row, col) pair, as the tuples find_coord returns. */
  datatype Coord = Coord(row: int, col: int)

  /** The nine values a board holds, each exactly once. */
  const Tiles: Board := [0, 1, 2, 3, 4, 5, 6, 7, 8]

  /** _init_state: 2 8 3 / 1 6 4 / 7 _ 5 */
  const InitState: Board := [2, 8, 3, 1, 6, 4, 7, 0, 5]

  /** _goal_state: 1 2 3 / 8 _ 4 / 7 6 5 */
  const GoalState: Board := [1, 2, 3, 8, 0, 4, 7, 6, 5]

  function Abs(x: int): nat { if x < 0 then -x else x }

  predicate InGrid(c: Coord) { 0 <= c.row < 3 && 0 <= c.col < 3 }

  function Cell(c: Coord): int { 3 * c.row + c.col }

  /** Orthogonal neighbours: Manhattan distance one. */
  predicate Adjacent(a: Coord, b: Coord) { Abs(a.row - b.row) + Abs(a.col - b.col) == 1 }

  /**
   A legal board: a permutation of the values 0..8. All three clauses are
   stated (each follows from the other two) so that a swap visibly keeps each.
   */
  predicate IsPermutation(b: Board)
  {
    && |b| == 9
    && (forall i :: 0 <= i < 9 ==> 0 <= b[i] < 9)
    && (forall i, j :: 0 <= i < j < 9 ==> Distinct(b, i, j))
    && (forall v :: 0 <= v < 9 ==> v in b)
  }

  /**
   Positions i and j of b hold different values. Stated through this
   predicate so that the verifier compares two positions only where a
   proof asks for it.
   */
  predicate Distinct(b: Board, i: int, j: int)
    requires 0 <= i < |b| && 0 <= j < |b|
  {
    b[i] != b[j]
  }

  /** Every value 0..8 occurs: what the row-major scans need to find a value. */
  predicate HasAllTiles(b: Board) { |b| == 9 && forall v :: 0 <= v < 9 ==> v in b }

  lemma CellInjective(a: Coord, b: Coord)
    requires InGrid(a) && InGrid(b) && Cell(a) == Cell(b)
    ensures a == b
  {
  }

  /** The cell of a board index. */
  function CoordOf(k: int): (c: Coord)
    requires 0 <= k < 9
    ensures InGrid(c) && Cell(c) == k
  {
    var r := if k < 3 then 0 else if k < 6 then 1 else 2;
    assert InGrid(Coord(r, k - 3 * r)) && Cell(Coord(r, k - 3 * r)) == k;
    var c :| InGrid(c) && Cell(c) == k; c
  }

  /** Two positions holding the same value in a permutation are the same position. */
  lemma PermutationDistinct(b: Board, i: int, j: int)
    requires IsPermutation(b) && 0 <= i < 9 && 0 <= j < 9
    ensures b[i] == b[j] ==> i == j
  {
    if i < j {
      assert Distinct(b, i, j);
    } else if j < i {
      assert Distinct(b, j, i);
    }
  }

  lemma GoalIsPermutation()
    ensures IsPermutation(GoalState)
  {
    assert GoalState[4] == 0 && GoalState[0] == 1 && GoalState[1] == 2 && GoalState[2] == 3 && GoalState[5] == 4;
    assert GoalState[8] == 5 && GoalState[7] == 6 && GoalState[6] == 7 && GoalState[3] == 8;
  }

  lemma InitIsPermutation()
    ensures IsPermutation(InitState)
  {
    assert InitState[7] == 0 && InitState[3] == 1 && InitState[0] == 2 && InitState[2] == 3 && InitState[5] == 4;
    assert InitState[8] == 5 && InitState[4] == 6 && InitState[6] == 7 && InitState[1] == 8;
  }

  /** Position k of s does not hold x. */
  predicate Differs<T(==)>(s: seq<T>, k: int, x: T)
    requires 0 <= k < |s|
  {
    s[k] != x
  }

  /**
   No position before i holds x. Stated through Differs so that the
   verifier applies it only where a proof asks for it.
   */
  predicate NoneBefore<T(==)>(s: seq<T>, x: T, i: int)
    requires 0 <= i <= |s|
  {
    forall k :: 0 <= k < i ==> Differs(s, k, x)
  }

  lemma NoneBeforeAt<T>(s: seq<T>, x: T, i: int, k: int)
    requires 0 <= i <= |s| && NoneBefore(s, x, i) && 0 <= k < i
    ensures s[k] != x
  {
    assert Differs(s, k, x);
  }

  /** Only one position holds x with no earlier position holding it. */
  lemma NoneBeforeUnique<T>(s: seq<T>, x: T)
    ensures forall i, j ::
      0 <= i < |s| && s[i] == x && NoneBefore(s, x, i) && 0 <= j < |s| && s[j] == x && NoneBefore(s, x, j)
      ==> i == j
  {
    forall i, j | 0 <= i < |s| && s[i] == x && NoneBefore(s, x, i) && 0 <= j < |s| && s[j] == x && NoneBefore(s, x, j)
      ensures i == j
    {
      if i < j {
        NoneBeforeAt(s, x, j, i);
        assert false;
      } else if j < i {
        NoneBeforeAt(s, x, i, j);
        assert false;
      }
    }
  }

  /** Some position holds x before any other does. */
  lemma {:induction false} FirstOccurrence<T>(s: seq<T>, x: T)
    requires x in s
    ensures exists i :: 0 <= i < |s| && s[i] == x && NoneBefore(s, x, i)
  {
    if s[0] == x {
      assert NoneBefore(s, x, 0);
    } else {
      var t := s[1..];
      assert x in t by { var j :| 0 <= j < |s| && s[j] == x; assert t[j - 1] == x; }
      FirstOccurrence(t, x);
      var i :| 0 <= i < |t| && t[i] == x && NoneBefore(t, x, i);
      forall k | 0 <= k < i + 1 ensures Differs(s, k, x) {
        if k > 0 {
          assert Differs(t, k - 1, x);
          assert s[k] == t[k - 1];
        }
      }
      assert s[i + 1] == t[i];
    }
  }

  /** The first index of x in s: what Python's list.index returns. */
  function FirstIndex<T(==)>(s: seq<T>, x: T): (i: nat)
    requires x in s
    ensures i < |s| && s[i] == x
  {
    FirstOccurrence(s, x);
    NoneBeforeUnique(s, x);
    var i :| 0 <= i < |s| && s[i] == x && NoneBefore(s, x, i); i
  }

  /** No position before FirstIndex holds x. */
  lemma FirstIndexIsFirst<T>(s: seq<T>, x: T)
    requires x in s
    ensures forall k :: 0 <= k < FirstIndex(s, x) ==> s[k] != x
  {
    forall k | 0 <= k < FirstIndex(s, x) ensures s[k] != x {
      NoneBeforeAt(s, x, FirstIndex(s, x), k);
    }
  }

  /** Appending to a list does not move the first occurrence of an element already in it. */
  lemma FirstIndexExtend<T>(s: seq<T>, t: seq<T>, x: T)
    requires x in s
    ensures x in s + t && FirstIndex(s + t, x) == FirstIndex(s, x)
  {
    var i, j := FirstIndex(s + t, x), FirstIndex(s, x);
    FirstIndexIsFirst(s + t, x);
    FirstIndexIsFirst(s, x);
    assert (s + t)[j] == x;
  }

  /**
   The row-major scan shared by find_coord and find_goalstate_coord: the
   (row, col) of the first cell of board b that holds value. find_coord
   runs it on a stored board, find_goalstate_coord on the board it is
   given.
   */
  function FindGoalstateCoord(b: Board, value: int): (c: Coord)
    requires |b| == 9 && value in b
    ensures InGrid(c) && b[Cell(c)] == value
  {
    CoordOf(FirstIndex(b, value))
  }

  /** The scan stops at the first cell holding the value: no earlier cell holds it. */
  lemma ScanFindsFirst(b: Board, value: int)
    requires |b| == 9 && value in b
    ensures forall k :: 0 <= k < Cell(FindGoalstateCoord(b, value)) ==> b[k] != value
  {
    FirstIndexIsFirst(b, value);
  }

  /** In a permutation, the scan finds the only cell holding the value. */
  lemma FindInPermutation(b: Board, c: Coord)
    requires IsPermutation(b) && InGrid(c)
    ensures FindGoalstateCoord(b, b[Cell(c)]) == c
  {
    var d := FindGoalstateCoord(b, b[Cell(c)]);
    PermutationDistinct(b, Cell(c), Cell(d));
    CellInjective(c, d);
  }

  /** The four candidate cells around c, in the order up, left, down, right. */
  function Neighbours(c: Coord): seq<Coord>
  {
    [Coord(c.row - 1, c.col), Coord(c.row, c.col - 1), Coord(c.row + 1, c.col), Coord(c.row, c.col + 1)]
  }

  /** The cells of cs that lie on the grid, in their order. */
  function KeepInGrid(cs: seq<Coord>): (r: seq<Coord>)
    ensures |r| <= |cs|
    ensures forall i :: 0 <= i < |r| ==> InGrid(r[i])
  {
    if cs == [] then [] else (if InGrid(cs[0]) then [cs[0]] else []) + KeepInGrid(cs[1..])
  }

  /** KeepInGrid keeps exactly the candidates on the grid. */
  lemma {:induction false} KeepInGridMembers(cs: seq<Coord>)
    ensures forall c :: c in KeepInGrid(cs) <==> c in cs && InGrid(c)
  {
    if cs != [] {
      KeepInGridMembers(cs[1..]);
      assert cs == [cs[0]] + cs[1..];
    }
  }

  /**
   Reference definition of the legal moves of a blank at position blank:
   its neighbours, filtered to the grid, in the order up, left, down, right.
   */
  function LegalMoves(blank: Coord): seq<Coord>
  {
    KeepInGrid(Neighbours(blank))
  }

  /** LegalMoves spelled out as the conditional appends of get_new_moves. */
  lemma LegalMovesUnfold(blank: Coord)
    requires InGrid(blank)
    ensures LegalMoves(blank) ==
      (if blank.row > 0 then [Coord(blank.row - 1, blank.col)] else []) +
      (if blank.col > 0 then [Coord(blank.row, blank.col - 1)] else []) +
      (if blank.row < 2 then [Coord(blank.row + 1, blank.col)] else []) +
      (if blank.col < 2 then [Coord(blank.row, blank.col + 1)] else [])
  {
    var n := Neighbours(blank);
    assert n[1..] == [n[1], n[2], n[3]];
    assert n[1..][1..] == [n[2], n[3]];
    assert n[1..][1..][1..] == [n[3]];
    assert n[1..][1..][1..][1..] == [];
  }

  /** The four candidates are exactly the cells at Manhattan distance one. */
  lemma NeighboursAreAdjacent(c: Coord, t: Coord)
    ensures t in Neighbours(c) <==> Adjacent(t, c)
  {
    var n := Neighbours(c);
    if Adjacent(t, c) {
      if t.row == c.row - 1 { assert t == n[0]; }
      else if t.col == c.col - 1 { assert t == n[1]; }
      else if t.row == c.row + 1 { assert t == n[2]; }
      else { assert t == n[3]; }
    }
  }

  /**
   The moves of a blank: exactly its orthogonal neighbours on the grid,
   without repetition; two on a corner, three on an edge, four in the centre.
   */
  lemma LegalMovesSpec(blank: Coord)
    requires InGrid(blank)
    ensures var m := LegalMoves(blank);
      && |m| == 2 + (if blank.row == 1 then 1 else 0) + (if blank.col == 1 then 1 else 0)
      && (forall t :: t in m <==> InGrid(t) && Adjacent(t, blank))
      && (forall i, j :: 0 <= i < j < |m| ==> m[i] != m[j])
  {
    LegalMovesCount(blank);
    LegalMovesDistinct(blank);
    KeepInGridMembers(Neighbours(blank));
    forall t ensures t in LegalMoves(blank) <==> InGrid(t) && Adjacent(t, blank) {
      NeighboursAreAdjacent(blank, t);
    }
  }

  lemma LegalMovesCount(blank: Coord)
    requires InGrid(blank)
    ensures |LegalMoves(blank)| == 2 + (if blank.row == 1 then 1 else 0) + (if blank.col == 1 then 1 else 0)
  {
    LegalMovesUnfold(blank);
  }

  lemma LegalMovesDistinct(blank: Coord)
    requires InGrid(blank)
    ensures var m := LegalMoves(blank); forall i, j :: 0 <= i < j < |m| ==> m[i] != m[j]
  {
    LegalMovesUnfold(blank);
  }

  /**
   The clone step of generate_states: the tile at tile is copied into the
   blank's cell and its own cell is set to 0.
   */
  function Slide(b: Board, blank: Coord, tile: Coord): (r: Board)
    requires |b| == 9 && InGrid(blank) && InGrid(tile)
    ensures |r| == 9
  {
    b[Cell(blank) := b[Cell(tile)]][Cell(tile) := 0]
  }

  /** c is p with the values at positions a and t exchanged and nothing else changed. */
  predicate IsSwap(p: Board, c: Board, a: int, t: int)
    requires |p| == 9 && 0 <= a < 9 && 0 <= t < 9
  {
    && |c| == 9 && c[a] == p[t] && c[t] == p[a]
    && forall k :: 0 <= k < 9 && k != a && k != t ==> c[k] == p[k]
  }

  /** Where a swap of positions a and t sends position k. */
  function SwapIndex(k: int, a: int, t: int): int
  {
    if k == a then t else if k == t then a else k
  }

  /** A swap of two positions keeps a permutation a permutation. */
  lemma SwapKeepsPermutation(p: Board, c: Board, a: int, t: int)
    requires IsPermutation(p) && 0 <= a < 9 && 0 <= t < 9 && IsSwap(p, c, a, t)
    ensures IsPermutation(c)
  {
    assert forall k :: 0 <= k < 9 ==> c[k] == p[SwapIndex(k, a, t)];
    forall i, j | 0 <= i < j < 9 ensures Distinct(c, i, j) {
      var si, sj := SwapIndex(i, a, t), SwapIndex(j, a, t);
      assert si != sj;
      PermutationDistinct(p, si, sj);
    }
    forall v | 0 <= v < 9 ensures v in c {
      assert v in p;
      var k :| 0 <= k < 9 && p[k] == v;
      assert c[SwapIndex(k, a, t)] == v;
    }
  }

  /** Sliding a tile into the blank's cell is a swap, so it keeps a permutation a permutation. */
  lemma SlideIsSwap(b: Board, blank: Coord, tile: Coord)
    requires IsPermutation(b) && InGrid(blank) && InGrid(tile) && Adjacent(tile, blank)
    requires b[Cell(blank)] == 0
    ensures IsSwap(b, Slide(b, blank, tile), Cell(blank), Cell(tile))
    ensures IsPermutation(Slide(b, blank, tile))
  {
    var s := Slide(b, blank, tile);
    var a, t := Cell(blank), Cell(tile);
    assert a != t by { if a == t { CellInjective(blank, tile); } }
    assert s[a] == b[t] && s[t] == b[a];
    assert IsSwap(b, s, a, t);
    SwapKeepsPermutation(b, s, a, t);
  }

  /** Sliding the tile back restores the board. */
  lemma SlideBack(b: Board, blank: Coord, tile: Coord)
    requires |b| == 9 && InGrid(blank) && InGrid(tile) && blank != tile
    requires b[Cell(blank)] == 0
    ensures Slide(Slide(b, blank, tile), tile, blank) == b
  {
    if Cell(blank) == Cell(tile) { CellInjective(blank, tile); }
    var s := Slide(b, blank, tile);
    assert forall k :: 0 <= k < 9 ==> Slide(s, tile, blank)[k] == b[k];
  }

  /**
   The candidate children of p, one per legal move of its blank, in move
   order: the boards generate_states builds before the duplicate check.
   */
  function Children(p: Board): (r: seq<Board>)
    requires HasAllTiles(p)
    ensures |r| == |LegalMoves(FindGoalstateCoord(p, 0))|
  {
    var blank := FindGoalstateCoord(p, 0);
    var moves := LegalMoves(blank);
    seq(|moves|, i requires 0 <= i < |moves| => Slide(p, blank, moves[i]))
  }

  /**
   Every child of a permutation p is p with the blank and one orthogonally
   adjacent tile swapped, and is itself a permutation; there are at most four.
   */
  lemma ChildrenAreMoves(p: Board)
    requires IsPermutation(p)
    ensures HasAllTiles(p)
    ensures var blank := FindGoalstateCoord(p, 0);
      var moves := LegalMoves(blank);
      && |Children(p)| <= 4
      && forall i :: 0 <= i < |Children(p)| ==>
           && InGrid(moves[i]) && Adjacent(moves[i], blank)
           && IsSwap(p, Children(p)[i], Cell(blank), Cell(moves[i]))
           && IsPermutation(Children(p)[i])
  {
    var blank := FindGoalstateCoord(p, 0);
    var moves := LegalMoves(blank);
    LegalMovesSpec(blank);
    forall i | 0 <= i < |Children(p)|
      ensures InGrid(moves[i]) && Adjacent(moves[i], blank)
      ensures IsSwap(p, Children(p)[i], Cell(blank), Cell(moves[i]))
      ensures IsPermutation(Children(p)[i])
    {
      assert moves[i] in moves;
      SlideIsSwap(p, blank, moves[i]);
    }
  }

  /**
   c is p after one move: the blank at some cell b exchanged with the tile
   at an orthogonally adjacent cell t.
   */
  ghost predicate IsMove(p: Board, c: Board)
  {
    |p| == 9 && exists b: Coord, t: Coord ::
      InGrid(b) && InGrid(t) && Adjacent(t, b) && p[Cell(b)] == 0 && IsSwap(p, c, Cell(b), Cell(t))
  }

  /** Every child is one move away from its parent. */
  lemma ChildIsMove(p: Board, c: Board)
    requires IsPermutation(p) && c in Children(p)
    ensures IsMove(p, c)
  {
    var blank := FindGoalstateCoord(p, 0);
    var i :| 0 <= i < |Children(p)| && Children(p)[i] == c;
    ChildrenAreMoves(p);
    var t := LegalMoves(blank)[i];
    assert InGrid(blank) && InGrid(t) && Adjacent(t, blank) && p[Cell(blank)] == 0 && IsSwap(p, c, Cell(blank), Cell(t));
  }

  /** The i-th child: the slide of the i-th legal move, whose cell becomes the child's blank. */
  lemma ChildShape(p: Board, i: int)
    requires IsPermutation(p) && 0 <= i < |Children(p)|
    ensures var blank := FindGoalstateCoord(p, 0);
      var tile := LegalMoves(blank)[i];
      && InGrid(tile) && Adjacent(tile, blank)
      && Children(p)[i] == Slide(p, blank, tile)
      && IsPermutation(Children(p)[i])
      && FindGoalstateCoord(Children(p)[i], 0) == tile
  {
    var blank := FindGoalstateCoord(p, 0);
    var moves := LegalMoves(blank);
    var tile := moves[i];
    LegalMovesSpec(blank);
    assert tile in moves;
    var c := Slide(p, blank, tile);
    SlideIsSwap(p, blank, tile);
    assert c[Cell(tile)] == 0;
    FindInPermutation(c, tile);
  }

  /** Moves are reversible: a permutation is a child of each of its children. */
  lemma ChildOfChild(p: Board, c: Board)
    requires IsPermutation(p) && c in Children(p)
    ensures IsPermutation(c) && p in Children(c)
  {
    var blank := FindGoalstateCoord(p, 0);
    var i :| 0 <= i < |Children(p)| && Children(p)[i] == c;
    var tile := LegalMoves(blank)[i];
    ChildShape(p, i);
    SlideBackIsChild(p, c, blank, tile);
  }

  /** If c is p slid from blank to tile and tile is c's blank, sliding back is one of c's children. */
  lemma SlideBackIsChild(p: Board, c: Board, blank: Coord, tile: Coord)
    requires |p| == 9 && InGrid(blank) && InGrid(tile) && Adjacent(tile, blank) && p[Cell(blank)] == 0
    requires c == Slide(p, blank, tile) && HasAllTiles(c) && FindGoalstateCoord(c, 0) == tile
    ensures p in Children(c)
  {
    BackMove(blank, tile);
    var j :| 0 <= j < |LegalMoves(tile)| && LegalMoves(tile)[j] == blank;
    SlideBack(p, blank, tile);
    var kids := Children(c);
    assert kids[j] == Slide(c, tile, blank);
  }

  lemma BackMove(blank: Coord, tile: Coord)
    requires InGrid(blank) && InGrid(tile) && Adjacent(tile, blank)
    ensures blank in LegalMoves(tile)
  {
    LegalMovesSpec(tile);
  }
}
