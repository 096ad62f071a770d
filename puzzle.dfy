/**
 The search engine: class EightPuzzle, with its state store (state_lst and
 the parallel depth list), the expansion step generate_states, the
 heuristic, and the two search drivers.
 */
module Puzzle {
  import opened Grid
  import opened Manhattan
  import opened Store
  import opened Frontier
  import opened Enqueue

  /** Python's `True` or `None`: what best_first_search returns. */
  datatype Option<T> = None | Some(value: T)

  /** n copies of x. */
  function Repeat(x: nat, n: nat): (r: seq<nat>)
    ensures |r| == n && forall i :: 0 <= i < n ==> r[i] == x
  {
    if n == 0 then [] else Repeat(x, n - 1) + [x]
  }

  function Reversed<T>(s: seq<T>): seq<T> { seq(|s|, i requires 0 <= i < |s| => s[|s| - 1 - i]) }

  /**
   One turn of the loop of generate_states, on values: registering the
   i-th candidate (or not, when it is known) extends the store, the
   children, and the two tag lists consistently.
   */
  lemma CloneStep(known: seq<Board>, d0: seq<nat>, p0: seq<nat>, kids: seq<Board>, i: nat,
                  lc: seq<Board>, tag: nat, pi: nat)
    requires i < |kids| && lc == Appended(known, kids[..i])
    ensures kids[i] in known + lc ==> Appended(known, kids[..i + 1]) == lc
    ensures kids[i] !in known + lc ==>
      && Appended(known, kids[..i + 1]) == lc + [kids[i]]
      && (known + lc) + [kids[i]] == known + (lc + [kids[i]])
      && (d0 + Repeat(tag, |lc|)) + [tag] == d0 + Repeat(tag, |lc| + 1)
      && (p0 + Repeat(pi, |lc|)) + [pi] == p0 + Repeat(pi, |lc| + 1)
  {
    if kids[i] in known + lc {
      AppendedSkip(known, kids, i);
    } else {
      AppendedGrow(known, kids, i);
    }
  }

  /**
   Every board of s after the first is one move away from the earlier board
   that par names: the store is a tree of legal moves rooted at its first board.
   */
  ghost predicate Linked(s: seq<Board>, par: seq<nat>)
    requires |par| == |s|
  {
    forall k :: 0 < k < |s| ==> par[k] < k && IsMove(s[par[k]], s[k])
  }

  /** Appending boards one move away from a stored board, with it as their parent, keeps the store linked. */
  lemma LinkedExtend(s: seq<Board>, par: seq<nat>, t: seq<Board>, pi: nat)
    requires |par| == |s| && Linked(s, par) && pi < |s|
    requires forall x :: x in t ==> IsMove(s[pi], x)
    ensures Linked(s + t, par + Repeat(pi, |t|))
  {
    var s', par' := s + t, par + Repeat(pi, |t|);
    forall k | 0 < k < |s'| ensures par'[k] < k && IsMove(s'[par'[k]], s'[k]) {
      if k < |s| {
        assert par'[k] == par[k] && s'[k] == s[k] && s'[par[k]] == s[par[k]];
      } else {
        assert par'[k] == pi && s'[k] == t[k - |s|] && s'[pi] == s[pi];
      }
    }
  }

  /** Registering the new children of a stored legal board keeps the store linked. */
  lemma ExpansionLinked(s: seq<Board>, par: seq<nat>, pi: nat)
    requires |par| == |s| && Linked(s, par) && pi < |s| && IsPermutation(s[pi])
    ensures var t := Appended(s, Children(s[pi])); Linked(s + t, par + Repeat(pi, |t|))
  {
    var t := Appended(s, Children(s[pi]));
    AppendedProperties(s, Children(s[pi]));
    forall x | x in t ensures IsMove(s[pi], x) {
      ChildIsMove(s[pi], x);
    }
    LinkedExtend(s, par, t, pi);
  }

  /**
   generate_states on values: the children of the legal board s0[i] that
   are not yet stored are lc, in move order; they are appended to the
   store, each tagged with tag and with i as its parent.
   */
  ghost predicate Expansion(s0: seq<Board>, d0: seq<nat>, p0: seq<nat>, i: nat, tag: nat,
                            s: seq<Board>, d: seq<nat>, p: seq<nat>, lc: seq<Board>)
  {
    && i < |s0| && IsPermutation(s0[i])
    && lc == Appended(s0, Children(s0[i]))
    && s == s0 + lc
    && d == d0 + Repeat(tag, |lc|)
    && p == p0 + Repeat(i, |lc|)
  }

  /**
   The state store's invariant: the initial board first at depth 0, the
   lists parallel, no board twice, and every board legal.
   */
  ghost predicate StoreInvariant(s: seq<Board>, d: seq<nat>, par: seq<nat>)
  {
    && |s| >= 1
    && |d| == |s| && d[0] == 0
    && |par| == |s|
    && NoDup(s)
    && AllLegal(s)
  }

  /** Registering the new children of a stored board keeps the store's invariant. */
  lemma ExpansionKeepsStore(s: seq<Board>, d: seq<nat>, par: seq<nat>, pi: nat, tag: nat)
    requires StoreInvariant(s, d, par) && pi < |s|
    ensures IsPermutation(s[pi])
    ensures var t := Appended(s, Children(s[pi]));
      StoreInvariant(s + t, d + Repeat(tag, |t|), par + Repeat(pi, |t|))
  {
    AllLegalAt(s, pi);
    var t := Appended(s, Children(s[pi]));
    AppendedProperties(s, Children(s[pi]));
    forall x | x in t ensures IsPermutation(x) {
      ChildOfChild(s[pi], x);
    }
    AllLegalAppend(s, t);
  }

  /**
   The object invariant on values: the store's invariant, and every board
   on the stack, closed, just generated or queued is a stored one.
   */
  ghost predicate Consistent(s: seq<Board>, d: seq<nat>, par: seq<nat>, op: seq<Board>,
                             cl: seq<Board>, lc: seq<Board>, q: seq<Entry>)
  {
    && StoreInvariant(s, d, par)
    && (forall b :: b in op ==> b in s)
    && (forall b :: b in cl ==> b in s)
    && (forall b :: b in lc ==> b in s)
    && (forall e :: e in q ==> e.board in s)
  }

  /** Expanding a stored board keeps the object invariant; its new children become latest_children. */
  lemma ExpansionKeepsConsistent(s: seq<Board>, d: seq<nat>, par: seq<nat>, op: seq<Board>,
                                 cl: seq<Board>, lc: seq<Board>, q: seq<Entry>, pi: nat, tag: nat)
    requires Consistent(s, d, par, op, cl, lc, q) && pi < |s|
    ensures IsPermutation(s[pi])
    ensures var t := Appended(s, Children(s[pi]));
      Consistent(s + t, d + Repeat(tag, |t|), par + Repeat(pi, |t|), op, cl, t, q)
  {
    ExpansionKeepsStore(s, d, par, pi, tag);
  }

  /** The elements of a reversed list are those of the list. */
  lemma ReversedMembers<T>(s: seq<T>)
    ensures forall x :: x in Reversed(s) <==> x in s
  {
    var r := Reversed(s);
    forall x | x in s ensures x in r {
      var k :| 0 <= k < |s| && s[k] == x;
      assert r[|s| - 1 - k] == x;
    }
  }

  /**
   One turn of the push loop, on values: the i-th candidate is pushed
   exactly when it is neither on the stack o + cur nor in c.
   */
  lemma PushStep<T>(o: seq<T>, c: seq<T>, cands: seq<T>, i: nat, cur: seq<T>)
    requires i < |cands| && cur == Appended(o + c, cands[..i])
    ensures cands[i] in o + cur || cands[i] in c ==> Appended(o + c, cands[..i + 1]) == cur
    ensures !(cands[i] in o + cur || cands[i] in c) ==>
      && Appended(o + c, cands[..i + 1]) == cur + [cands[i]]
      && (o + cur) + [cands[i]] == o + (cur + [cands[i]])
  {
    if cands[i] in o + cur || cands[i] in c {
      AppendedSkip(o + c, cands, i);
    } else {
      AppendedGrow(o + c, cands, i);
    }
  }

  /**
   After the push loop: the object invariant holds, every latest child is
   on the stack or closed, and a clean frontier stays clean.
   */
  lemma PushKeepsConsistent(s: seq<Board>, d: seq<nat>, par: seq<nat>, op: seq<Board>,
                            cl: seq<Board>, lc: seq<Board>, q: seq<Entry>)
    requires Consistent(s, d, par, op, cl, lc, q)
    ensures var op' := op + Appended(op + cl, Reversed(lc));
      && Consistent(s, d, par, op', cl, lc, q)
      && (forall b :: b in lc ==> b in op' || b in cl)
      && (NoDup(op) && NoDup(cl) && (forall b :: b in op ==> b !in cl) ==>
            NoDup(op') && forall b :: b in op' ==> b !in cl)
  {
    var pushed := Appended(op + cl, Reversed(lc));
    AppendedProperties(op + cl, Reversed(lc));
    ReversedMembers(lc);
    if NoDup(op) && NoDup(cl) && (forall b :: b in op ==> b !in cl) {
      NoDupConcat(op, pushed);
    }
  }

  /** Popping the top of the stack keeps the object invariant; the popped board is a stored one. */
  lemma PopConsistent(s: seq<Board>, d: seq<nat>, par: seq<nat>, o: seq<Board>,
                      c: seq<Board>, lc: seq<Board>, q: seq<Entry>)
    requires |o| > 0 && Consistent(s, d, par, o, c, lc, q)
    ensures o == o[..|o| - 1] + [o[|o| - 1]] && o[|o| - 1] in s
    ensures Consistent(s, d, par, o[..|o| - 1], c, lc, q)
  {
    assert o == o[..|o| - 1] + [o[|o| - 1]];
  }

  /** Closing a stored board keeps the object invariant. */
  lemma CloseConsistent(s: seq<Board>, d: seq<nat>, par: seq<nat>, o: seq<Board>,
                        c: seq<Board>, lc: seq<Board>, q: seq<Entry>, x: Board)
    requires Consistent(s, d, par, o, c, lc, q) && x in s
    ensures Consistent(s, d, par, o, c + [x], lc, q)
  {
  }

  /** Only boards whose recorded depth is at most this are expanded by depth_first_search. */
  const DepthLimit: nat := 5

  /**
   What the else-branch of depth_first_search does to the store for a
   popped legal board cs of the store s0: when its recorded depth is within
   the limit, depthidx becomes that depth plus one and the children of cs
   not yet stored become latest_children, appended to the store with that
   tag and with cs's index as parent; otherwise nothing changes and
   latest_children keeps the children of the previous expansion.
   */
  ghost predicate DfsExpansion(s0: seq<Board>, d0: seq<nat>, p0: seq<nat>, lc0: seq<Board>, di0: nat, cs: Board,
                               s: seq<Board>, d: seq<nat>, p: seq<nat>, lc: seq<Board>, di: nat)
  {
    && cs in s0 && |d0| == |s0| && IsPermutation(cs)
    && var i := FirstIndex(s0, cs);
      if d0[i] <= DepthLimit then
        di == d0[i] + 1 && Expansion(s0, d0, p0, i, di, s, d, p, lc)
      else
        && di == di0 && lc == lc0
        && s == s0 && d == d0 && p == p0
  }

  /** The top of a non-empty stack, the last element. */
  function Top(st: seq<Board>): Board
    requires st != []
  {
    st[|st| - 1]
  }

  /** A non-empty stack without its top. */
  function Pop(st: seq<Board>): seq<Board>
    requires st != []
  {
    st[..|st| - 1]
  }

  /**
   The stacks depth_first_search popped from, in order: the first is
   first, each popped board is the top of its stack, and each stack keeps
   the one before it, less its top, at the bottom (a turn only pushes).
   */
  ghost predicate StackTrace(stacks: seq<seq<Board>>, popped: seq<Board>, first: seq<Board>)
  {
    && |stacks| == |popped|
    && (|stacks| > 0 ==> stacks[0] == first)
    && (forall k :: 0 <= k < |stacks| ==> stacks[k] != [] && popped[k] == Top(stacks[k]))
    && (forall k :: 0 <= k < |stacks| - 1 ==> stacks[k] != [] && Pop(stacks[k]) <= stacks[k + 1])
  }

  /** Popping the top of a stack that extends the last traced one, less its top, extends the trace. */
  lemma StackTraceSnoc(stacks: seq<seq<Board>>, popped: seq<Board>, first: seq<Board>, st: seq<Board>)
    requires StackTrace(stacks, popped, first) && st != []
    requires |stacks| == 0 ==> st == first
    requires |stacks| > 0 ==> Pop(stacks[|stacks| - 1]) <= st
    ensures StackTrace(stacks + [st], popped + [Top(st)], first)
  {
    var stacks', popped' := stacks + [st], popped + [Top(st)];
    forall k | 0 <= k < |stacks'| - 1 ensures stacks'[k] != [] && Pop(stacks'[k]) <= stacks'[k + 1] {
      assert stacks'[k] == stacks[k];
    }
  }

  /**
   From position n0 on, every tag is one more than the tag of the board
   whose expansion registered it, and that board was within the depth limit.
   */
  ghost predicate TaggedByParents(d: seq<nat>, par: seq<nat>, n0: nat)
  {
    && |par| == |d| && n0 <= |d|
    && forall j :: n0 <= j < |d| ==> par[j] < j && d[par[j]] <= DepthLimit && d[j] == d[par[j]] + 1
  }

  /** Tagging the children of board i with d[i] + 1, as depth_first_search does, keeps the tags tied to the parents. */
  lemma TagsExtend(d: seq<nat>, par: seq<nat>, n0: nat, i: nat, m: nat)
    requires TaggedByParents(d, par, n0) && i < |d| && d[i] <= DepthLimit
    ensures TaggedByParents(d + Repeat(d[i] + 1, m), par + Repeat(i, m), n0)
  {
    var d', par' := d + Repeat(d[i] + 1, m), par + Repeat(i, m);
    forall j | n0 <= j < |d'| ensures par'[j] < j && d'[par'[j]] <= DepthLimit && d'[j] == d'[par'[j]] + 1 {
      if j < |d| {
        assert par'[j] == par[j] && d'[j] == d[j] && d'[par[j]] == d[par[j]];
      } else {
        assert par'[j] == i && d'[j] == d[i] + 1 && d'[i] == d[i];
      }
    }
  }

  /** What one expansion of board i, giving the store s2, d2, par2, does to the store's measures and tags. */
  lemma ExpansionFacts(s: seq<Board>, d: seq<nat>, par: seq<nat>, i: nat, n0: nat, t: seq<Board>,
                       s2: seq<Board>, d2: seq<nat>, par2: seq<nat>)
    requires StoreInvariant(s, d, par) && i < |s| && IsPermutation(s[i]) && t == Appended(s, Children(s[i]))
    requires s2 == s + t && d2 == d + Repeat(d[i] + 1, |t|) && par2 == par + Repeat(i, |t|)
    ensures s <= s2 && d <= d2
    ensures s2 == s || |Unregistered(s2)| < |Unregistered(s)|
    ensures TaggedByParents(d, par, n0) && d[i] <= DepthLimit ==> TaggedByParents(d2, par2, n0)
  {
    if TaggedByParents(d, par, n0) && d[i] <= DepthLimit {
      TagsExtend(d, par, n0, i, |t|);
    }
    StoreGrowth(s, i, t, s2);
  }

  /** Registering the new children of a legal board: the store only grows, and when it grows the unregistered space shrinks. */
  lemma StoreGrowth(s: seq<Board>, i: nat, t: seq<Board>, s2: seq<Board>)
    requires i < |s| && IsPermutation(s[i]) && t == Appended(s, Children(s[i])) && s2 == s + t
    ensures s <= s2
    ensures s2 == s || |Unregistered(s2)| < |Unregistered(s)|
  {
    AppendedProperties(s, Children(s[i]));
    RegisteringShrinks(s, t);
    if t != [] {
      assert t[0] in t;
      ChildOfChild(s[i], t[0]);
    } else {
      assert s2 == s;
    }
  }

  /**
   Popping the top of a clean stack leaves a clean stack and closed list,
   and the popped board is on neither.
   */
  lemma PopKeepsClean(o: seq<Board>, c: seq<Board>)
    requires |o| > 0 && NoDup(o) && NoDup(c) && forall b :: b in o ==> b !in c
    ensures var n := |o| - 1;
      && NoDup(o[..n]) && (forall b :: b in o[..n] ==> b !in c)
      && o[n] !in o[..n] && o[n] !in c
  {
    var n := |o| - 1;
    assert o[n] in o;
  }

  /**
   From position n0 on, every tag lies in (lo, hi]; tagging m more boards
   with hi + 1 keeps them in (lo, hi + 1].
   */
  lemma TagsInRange(d: seq<nat>, n0: nat, lo: nat, hi: nat, m: nat, d2: seq<nat>)
    requires n0 <= |d| && forall j :: n0 <= j < |d| ==> lo < d[j] <= hi
    requires lo <= hi && d2 == d + Repeat(hi + 1, m)
    ensures forall j :: n0 <= j < |d2| ==> lo < d2[j] <= hi + 1
  {
    forall j | n0 <= j < |d2| ensures lo < d2[j] <= hi + 1 {
      if j < |d| {
        assert d2[j] == d[j];
      }
    }
  }

  /** The seed entry of best_first_search carries the initial board's heuristic and recorded depth. */
  lemma SeedTagged(s: seq<Board>, d: seq<nat>, q: seq<Entry>, h: nat)
    requires |s| >= 1 && |d| == |s| && d[0] == 0 && AllLegal(s) && QueueTagged(q, s, d)
    requires IsPermutation(s[0]) && h == HeuristicOf(s[0])
    ensures QueueTagged(q + [Entry(h + d[0], d[0], s[0])], s, d)
  {
    FirstIndexIsFirst(s, s[0]);
    assert FirstIndex(s, s[0]) == 0;
    assert EntryTagged(s, d, Entry(h + d[0], d[0], s[0]));
    QueueTaggedConcat(q, [Entry(h + d[0], d[0], s[0])], s, d);
  }

  class EightPuzzle {
    /** Every board discovered so far, the initial one first; never two equal ones. */
    var stateLst: seq<Board>
    /** The depth-first stack; its top is the last element. */
    var openList: seq<Board>
    /** The boards the searches have finished with. */
    var closed: seq<Board>
    /** The boards the last generate_states call registered. */
    var latestChildren: seq<Board>
    /** depth[k] is the tag given to stateLst[k] when it was registered. */
    var depth: seq<nat>
    /** The tag of the next expansion's children, less one. */
    var depthidx: nat
    /** The best-first priority queue, as a sequence of entries in insertion order. */
    var openQ: seq<Entry>
    /** parent[k] is the index of the board whose expansion registered stateLst[k]. */
    ghost var parent: seq<nat>

    /** The object invariant. */
    ghost predicate Valid()
      reads this
    {
      Consistent(stateLst, depth, parent, openList, closed, latestChildren, openQ)
    }

    /** The store is a tree of legal moves: see Linked. */
    ghost predicate Tree()
      reads this
    {
      |parent| == |stateLst| && Linked(stateLst, parent)
    }

    /**
     The store starts with the initial board. The constructor makes it so
     and every method keeps stateLst's old value as a prefix, so it always
     holds; it is kept apart from Valid because a literal board in the
     context of every proof makes them much more expensive.
     */
    ghost predicate Rooted()
      reads this
    {
      |stateLst| >= 1 && stateLst[0] == InitState
    }

    /** No board is twice on the stack, twice closed, or both. */
    ghost predicate FrontierClean()
      reads this
    {
      NoDup(openList) && NoDup(closed) && forall b :: b in openList ==> b !in closed
    }

    /** __init__: the store holds the initial board at depth 0; everything else is empty. */
    constructor ()
      ensures Valid() && FrontierClean() && Tree() && Rooted()
      ensures stateLst == [InitState] && depth == [0] && depthidx == 0
      ensures openList == [] && closed == [] && latestChildren == [] && openQ == []
    {
      stateLst := [InitState];
      openList := [];
      closed := [];
      latestChildren := [];
      depthidx := 0;
      depth := [0];
      openQ := [];
      parent := [0];
      InitIsPermutation();
    }

    /** find_coord: the row-major scan of a stored board for a value. */
    method FindCoord(value: int, stateIdx: nat) returns (c: Coord)
      requires stateIdx < |stateLst| && HasAllTiles(stateLst[stateIdx]) && 0 <= value < 9
      ensures InGrid(c) && stateLst[stateIdx][Cell(c)] == value
      ensures c == FindGoalstateCoord(stateLst[stateIdx], value)
    {
      var b := stateLst[stateIdx];
      ghost var first := FirstIndex(b, value);
      c := Coord(0, 0);
      for row := 0 to 3
        invariant forall k :: 0 <= k < 3 * row ==> b[k] != value
      {
        for col := 0 to 3
          invariant forall k :: 0 <= k < 3 * row + col ==> b[k] != value
        {
          if b[3 * row + col] == value {
            c := Coord(row, col);
            var d := FindGoalstateCoord(b, value);
            ScanFindsFirst(b, value);
            assert Cell(d) == Cell(c);
            CellInjective(c, d);
            return;
          }
        }
      }
      assert false;
    }

    /** get_new_moves: the cells that can slide into the blank, up, left, down, right. */
    method GetNewMoves(stateIdx: nat) returns (moves: seq<Coord>)
      requires stateIdx < |stateLst| && HasAllTiles(stateLst[stateIdx])
      ensures moves == LegalMoves(FindGoalstateCoord(stateLst[stateIdx], 0))
    {
      var blank := FindCoord(0, stateIdx);
      ghost var up := if blank.row > 0 then [Coord(blank.row - 1, blank.col)] else [];
      ghost var left := if blank.col > 0 then [Coord(blank.row, blank.col - 1)] else [];
      ghost var down := if blank.row < 2 then [Coord(blank.row + 1, blank.col)] else [];
      ghost var right := if blank.col < 2 then [Coord(blank.row, blank.col + 1)] else [];
      moves := [];
      if blank.row > 0 {
        moves := moves + [Coord(blank.row - 1, blank.col)];
      }
      assert moves == up;
      if blank.col > 0 {
        moves := moves + [Coord(blank.row, blank.col - 1)];
      }
      assert moves == up + left;
      if blank.row < 2 {
        moves := moves + [Coord(blank.row + 1, blank.col)];
      }
      assert moves == up + left + down;
      if blank.col < 2 {
        moves := moves + [Coord(blank.row, blank.col + 1)];
      }
      assert moves == up + left + down + right;
      LegalMovesUnfold(blank);
    }

    /** heuristic: the Manhattan distance of a stored board from the goal. */
    method Heuristic(stateIdx: nat) returns (score: int)
      requires stateIdx < |stateLst| && HasAllTiles(stateLst[stateIdx])
      ensures score == HeuristicOf(stateLst[stateIdx])
    {
      GoalHasAllTiles();
      score := 0;
      for i := 0 to 9
        invariant score == HeuristicUpTo(stateLst[stateIdx], i)
      {
        var c := FindCoord(i, stateIdx);
        var g := FindGoalstateCoord(GoalState, i);
        GoalCoordIsScan(i);
        score := score + Abs(c.row - g.row) + Abs(c.col - g.col);
      }
    }

    /**
     The loop of generate_states over the moves of stateLst[stateIdx]: each
     move gives a clone with the tile slid into the blank; a clone not yet
     in the store is appended to it, to latest_children, and tagged with
     depthidx.
     */
    method CloneMoves(stateIdx: nat, moveLst: seq<Coord>, blank: Coord)
      requires stateIdx < |stateLst| && IsPermutation(stateLst[stateIdx]) && latestChildren == []
      requires blank == FindGoalstateCoord(stateLst[stateIdx], 0) && moveLst == LegalMoves(blank)
      modifies this`stateLst, this`latestChildren, this`depth, this`parent
      ensures latestChildren == Appended(old(stateLst), Children(old(stateLst)[stateIdx]))
      ensures stateLst == old(stateLst) + latestChildren
      ensures depth == old(depth) + Repeat(depthidx, |latestChildren|)
      ensures parent == old(parent) + Repeat(stateIdx, |latestChildren|)
    {
      ghost var p := stateLst[stateIdx];
      ghost var kids := Children(p);
      for i := 0 to |moveLst|
        invariant stateIdx < |stateLst| && stateLst[stateIdx] == p
        invariant stateLst == old(stateLst) + latestChildren
        invariant latestChildren == Appended(old(stateLst), kids[..i])
        invariant depth == old(depth) + Repeat(depthidx, |latestChildren|)
        invariant parent == old(parent) + Repeat(stateIdx, |latestChildren|)
      {
        ChildShape(p, i);
        var tile := moveLst[i];
        var clone := Slide(stateLst[stateIdx], blank, tile);
        CloneStep(old(stateLst), old(depth), old(parent), kids, i, latestChildren, depthidx, stateIdx);
        if clone !in stateLst {
          stateLst := stateLst + [clone];
          latestChildren := latestChildren + [clone];
          depth := depth + [depthidx];
          parent := parent + [stateIdx];
        }
      }
      assert kids[..|moveLst|] == kids;
    }

    /**
     generate_states: expand stateLst[stateIdx]. Each legal move gives a
     clone with the tile slid into the blank; a clone not yet in the store
     is appended to it, to latest_children, and tagged with the incremented
     depthidx. Nothing registered before changes.
     */
    method GenerateStates(stateIdx: nat)
      requires Valid() && stateIdx < |stateLst|
      modifies this`stateLst, this`latestChildren, this`depth, this`parent, this`depthidx
      ensures Valid()
      ensures depthidx == old(depthidx) + 1
      ensures Expansion(old(stateLst), old(depth), old(parent), stateIdx, depthidx,
                        stateLst, depth, parent, latestChildren)
      ensures old(Tree()) ==> Tree()
    {
      AllLegalAt(stateLst, stateIdx);
      latestChildren := [];
      depthidx := depthidx + 1;
      var moveLst := GetNewMoves(stateIdx);
      var blank := FindCoord(0, stateIdx);
      CloneMoves(stateIdx, moveLst, blank);
      ExpansionKeepsConsistent(old(stateLst), old(depth), old(parent), openList, closed,
                               old(latestChildren), openQ, stateIdx, depthidx);
      if old(Tree()) {
        ExpansionLinked(old(stateLst), old(parent), stateIdx);
      }
    }

    /** open_q.get(): remove and return the least entry of the queue. */
    method QueueGet() returns (e: Entry)
      requires |openQ| > 0
      modifies this`openQ
      ensures e in old(openQ)
      ensures forall x {:trigger EntryLess(x, e)} :: x in old(openQ) ==> !EntryLess(x, e)
      ensures forall y :: y in old(openQ) && (forall x {:trigger EntryLess(x, y)} :: x in old(openQ) ==> !EntryLess(x, y)) ==> y == e
      ensures multiset(openQ) == multiset(old(openQ)) - multiset{e}
      ensures |openQ| == |old(openQ)| - 1 && forall x :: x in openQ ==> x in old(openQ)
    {
      var m := MinIndex(openQ);
      e := openQ[m];
      forall y | y in openQ && (forall x {:trigger EntryLess(x, y)} :: x in openQ ==> !EntryLess(x, y)) ensures y == e {
        LeastIsUnique(openQ, y, e);
      }
      assert openQ == openQ[..m] + [e] + openQ[m + 1..];
      openQ := openQ[..m] + openQ[m + 1..];
    }

    /**
     The push loop of depth_first_search: walk latest_children from last to
     first and push each child that is neither on the stack nor closed.
     */
    method PushUnseenChildren()
      requires Valid()
      modifies this`openList
      ensures Valid()
      ensures openList == old(openList) + Appended(old(openList) + closed, Reversed(latestChildren))
      ensures forall b :: b in latestChildren ==> b in openList || b in closed
      ensures old(FrontierClean()) ==> FrontierClean()
    {
      ghost var rev := Reversed(latestChildren);
      for i := 0 to |latestChildren|
        invariant openList == old(openList) + Appended(old(openList) + closed, rev[..i])
      {
        var child := latestChildren[|latestChildren| - 1 - i];
        assert child == rev[i];
        PushStep(old(openList), closed, rev, i, openList[|old(openList)|..]);
        if child !in openList && child !in closed {
          openList := openList + [child];
        }
      }
      assert rev[..|latestChildren|] == rev;
      PushKeepsConsistent(stateLst, depth, parent, old(openList), closed, latestChildren, openQ);
    }

    /**
     The else-branch of depth_first_search for a popped board cs: look up
     its index, expand it when its recorded depth is within the limit
     (first setting depthidx to that depth, so its children are tagged one
     deeper), and close it in any case. When it is not expanded,
     latest_children keeps the children of the previous expansion.
     */
    method ExpandAndClose(cs: Board, ghost n0: nat)
      requires Valid() && cs in stateLst
      modifies this`stateLst, this`latestChildren, this`depth, this`parent, this`depthidx, this`closed
      ensures Valid()
      ensures closed == old(closed) + [cs]
      ensures DfsExpansion(old(stateLst), old(depth), old(parent), old(latestChildren), old(depthidx), cs,
                           stateLst, depth, parent, latestChildren, depthidx)
      ensures old(stateLst) <= stateLst && old(depth) <= depth
      ensures stateLst == old(stateLst) || |Unregistered(stateLst)| < |Unregistered(old(stateLst))|
      ensures TaggedByParents(old(depth), old(parent), n0) ==> TaggedByParents(depth, parent, n0)
      ensures old(FrontierClean()) && cs !in old(openList) && cs !in old(closed) ==> FrontierClean()
      ensures old(Tree()) ==> Tree()
    {
      var i := FirstIndex(stateLst, cs);
      AllLegalAt(stateLst, i);
      if depth[i] <= DepthLimit {
        depthidx := depth[i];
        ghost var s0, d0, p0 := stateLst, depth, parent;
        GenerateStates(i);
        ExpansionFacts(s0, d0, p0, i, n0, latestChildren, stateLst, depth, parent);
      }
      CloseConsistent(stateLst, depth, parent, openList, closed, latestChildren, openQ, cs);
      if old(FrontierClean()) && cs !in openList && cs !in closed {
        NoDupSnoc(closed, cs);
      }
      closed := closed + [cs];
    }

    /**
     One turn of depth_first_search for a popped board cs that is not the
     goal: ExpandAndClose, then the push loop. Either the store grows, or
     the stored boards neither on the stack nor closed shrink by at least
     as many as were pushed.
     */
    method ExpandCloseAndPush(cs: Board, ghost n0: nat)
      requires Valid() && cs in stateLst
      modifies this`stateLst, this`latestChildren, this`depth, this`parent, this`depthidx
      modifies this`openList, this`closed
      ensures Valid()
      ensures closed == old(closed) + [cs]
      ensures DfsExpansion(old(stateLst), old(depth), old(parent), old(latestChildren), old(depthidx), cs,
                           stateLst, depth, parent, latestChildren, depthidx)
      ensures openList == old(openList) + Appended(old(openList) + closed, Reversed(latestChildren))
      ensures old(stateLst) <= stateLst && old(depth) <= depth
      ensures stateLst != old(stateLst) ==> |Unregistered(stateLst)| < |Unregistered(old(stateLst))|
      ensures stateLst == old(stateLst) ==>
        2 * |Unseen(stateLst, openList, closed)| + |openList| <
        2 * |Unseen(old(stateLst), old(openList) + [cs], old(closed))| + |old(openList)| + 1
      ensures TaggedByParents(old(depth), old(parent), n0) ==> TaggedByParents(depth, parent, n0)
      ensures old(FrontierClean()) && cs !in old(openList) && cs !in old(closed) ==> FrontierClean()
      ensures old(Tree()) ==> Tree()
    {
      ExpandAndClose(cs, n0);
      PushUnseenChildren();
      if stateLst == old(stateLst) {
        ghost var pushed := Appended(old(openList) + closed, Reversed(latestChildren));
        AppendedProperties(old(openList) + closed, Reversed(latestChildren));
        ReversedMembers(latestChildren);
        PopPushShrinks(stateLst, old(openList), old(closed), cs, pushed);
      }
    }

    /**
     One turn of the loop of depth_first_search: pop the top of the stack
     and, unless it is the goal, pass it to ExpandCloseAndPush. The turn
     either registers a new board or uses up stored boards that were
     neither on the stack nor closed.
     */
    method DfsTurn(ghost n0: nat) returns (cs: Board, isGoal: bool)
      requires Valid() && openList != []
      modifies this`stateLst, this`latestChildren, this`depth, this`parent, this`depthidx
      modifies this`openList, this`closed
      ensures Valid()
      ensures cs == Top(old(openList)) && isGoal == (cs == GoalState)
      ensures isGoal ==>
        && openList == Pop(old(openList)) && closed == old(closed)
        && stateLst == old(stateLst) && depth == old(depth) && parent == old(parent)
        && latestChildren == old(latestChildren) && depthidx == old(depthidx)
      ensures !isGoal ==>
        && closed == old(closed) + [cs]
        && DfsExpansion(old(stateLst), old(depth), old(parent), old(latestChildren), old(depthidx), cs,
                        stateLst, depth, parent, latestChildren, depthidx)
        && openList == Pop(old(openList)) + Appended(Pop(old(openList)) + closed, Reversed(latestChildren))
      ensures Pop(old(openList)) <= openList
      ensures old(stateLst) <= stateLst && old(depth) <= depth
      ensures !isGoal && stateLst != old(stateLst) ==> |Unregistered(stateLst)| < |Unregistered(old(stateLst))|
      ensures !isGoal && stateLst == old(stateLst) ==>
        2 * |Unseen(stateLst, openList, closed)| + |openList| <
        2 * |Unseen(old(stateLst), old(openList), old(closed))| + |old(openList)|
      ensures TaggedByParents(old(depth), old(parent), n0) ==> TaggedByParents(depth, parent, n0)
      ensures old(FrontierClean()) ==> FrontierClean()
      ensures old(Tree()) ==> Tree()
    {
      cs := openList[|openList| - 1];
      PopConsistent(stateLst, depth, parent, openList, closed, latestChildren, openQ);
      if old(FrontierClean()) {
        PopKeepsClean(openList, closed);
      }
      openList := openList[..|openList| - 1];
      isGoal := cs == GoalState;
      if !isGoal {
        ExpandCloseAndPush(cs, n0);
      }
    }

    /**
     A turn of the loop of depth_first_search (see DfsTurn) as the loop
     records it: the board popped now joins popped, the boards popped
     since the closed list was c0, and the stack it was the top of joins
     stacks, the stacks they were popped from, the first being o0.
     */
    method TracedDfsTurn(ghost s0: seq<Board>, ghost c0: seq<Board>, ghost o0: seq<Board>,
                         ghost popped: seq<Board>, ghost stacks: seq<seq<Board>>)
      returns (cs: Board, isGoal: bool, ghost popped': seq<Board>, ghost stacks': seq<seq<Board>>)
      requires Valid() && openList != [] && s0 <= stateLst && TaggedByParents(depth, parent, |s0|)
      requires closed == c0 + popped && StackTrace(stacks, popped, o0)
      requires |stacks| == 0 ==> openList == o0
      requires |stacks| > 0 ==> Pop(stacks[|stacks| - 1]) <= openList
      modifies this`stateLst, this`latestChildren, this`depth, this`parent, this`depthidx
      modifies this`openList, this`closed
      ensures Valid() && s0 <= stateLst && old(depth) <= depth && TaggedByParents(depth, parent, |s0|)
      ensures isGoal == (cs == GoalState) && cs in stateLst
      ensures popped' == popped + [cs] && StackTrace(stacks', popped', o0)
      ensures isGoal ==> openList == Pop(stacks'[|stacks'| - 1]) && closed == old(closed) && stateLst == old(stateLst)
      ensures !isGoal ==> closed == c0 + popped' && Pop(stacks'[|stacks'| - 1]) <= openList
      ensures !isGoal && stateLst != old(stateLst) ==> |Unregistered(stateLst)| < |Unregistered(old(stateLst))|
      ensures !isGoal && stateLst == old(stateLst) ==>
        2 * |Unseen(stateLst, openList, closed)| + |openList| <
        2 * |Unseen(old(stateLst), old(openList), old(closed))| + |old(openList)|
      ensures old(FrontierClean()) ==> FrontierClean()
      ensures old(Tree()) ==> Tree()
    {
      ghost var st := openList;
      cs, isGoal := DfsTurn(|s0|);
      StackTraceSnoc(stacks, popped, o0, st);
      SnocAssoc(c0, popped, cs);
      popped', stacks' := popped + [cs], stacks + [st];
    }

    /**
     The loop of depth_first_search: pop boards until the goal is popped or
     the stack is empty (see DfsTurn). popped lists the boards popped, in
     order, and stacks the stack each was popped from.
     */
    method SearchStack() returns (found: bool, ghost popped: seq<Board>, ghost stacks: seq<seq<Board>>)
      requires Valid()
      modifies this`stateLst, this`latestChildren, this`depth, this`parent, this`depthidx
      modifies this`openList, this`closed
      ensures Valid()
      ensures StackTrace(stacks, popped, old(openList))
      ensures old(openList) != [] ==> |popped| > 0
      ensures found ==>
        && |popped| > 0 && popped[|popped| - 1] == GoalState && GoalState in stateLst
        && openList == Pop(stacks[|stacks| - 1])
      ensures !found ==> openList == []
      ensures forall k :: 0 <= k < |popped| - (if found then 1 else 0) ==> popped[k] != GoalState
      ensures closed == old(closed) + (if found then popped[..|popped| - 1] else popped)
      ensures old(stateLst) <= stateLst && old(depth) <= depth
      ensures TaggedByParents(depth, parent, |old(stateLst)|)
      ensures old(FrontierClean()) ==> FrontierClean()
      ensures old(Tree()) ==> Tree()
    {
      popped, stacks := [], [];
      while openList != []
        invariant Valid()
        invariant old(stateLst) <= stateLst && old(depth) <= depth
        invariant TaggedByParents(depth, parent, |old(stateLst)|)
        invariant closed == old(closed) + popped
        invariant forall k :: 0 <= k < |popped| ==> popped[k] != GoalState
        invariant StackTrace(stacks, popped, old(openList))
        invariant |stacks| == 0 ==> openList == old(openList)
        invariant |stacks| > 0 ==> Pop(stacks[|stacks| - 1]) <= openList
        invariant old(FrontierClean()) ==> FrontierClean()
        invariant old(Tree()) ==> Tree()
        decreases |Unregistered(stateLst)|, 2 * |Unseen(stateLst, openList, closed)| + |openList|
      {
        ghost var before := popped;
        var cs, isGoal;
        cs, isGoal, popped, stacks := TracedDfsTurn(old(stateLst), old(closed), old(openList), popped, stacks);
        if isGoal {
          assert popped[..|popped| - 1] == before;
          found := true;
          return;
        }
      }
      found := false;
    }

    /**
     depth_first_search: push the initial board, then run the loop (see
     SearchStack). The first board popped is the initial board.
     */
    method DepthFirstSearch() returns (found: bool, ghost popped: seq<Board>, ghost stacks: seq<seq<Board>>)
      requires Valid() && Rooted()
      modifies this`stateLst, this`latestChildren, this`depth, this`parent, this`depthidx
      modifies this`openList, this`closed
      ensures Valid()
      ensures StackTrace(stacks, popped, old(openList) + [InitState])
      ensures |popped| > 0 && popped[0] == InitState
      ensures found ==>
        && popped[|popped| - 1] == GoalState && GoalState in stateLst
        && openList == Pop(stacks[|stacks| - 1])
      ensures !found ==> openList == []
      ensures forall k :: 0 <= k < |popped| - (if found then 1 else 0) ==> popped[k] != GoalState
      ensures closed == old(closed) + (if found then popped[..|popped| - 1] else popped)
      ensures old(stateLst) <= stateLst && old(depth) <= depth
      ensures TaggedByParents(depth, parent, |old(stateLst)|)
      ensures old(FrontierClean()) && InitState !in old(openList) && InitState !in old(closed) ==> FrontierClean()
      ensures old(Tree()) ==> Tree()
    {
      if old(FrontierClean()) && InitState !in openList && InitState !in closed {
        NoDupSnoc(openList, InitState);
      }
      assert stateLst[0] in stateLst;
      openList := openList + [InitState];
      found, popped, stacks := SearchStack();
    }

    /**
     The body of the child loop of best_first_search for a child that is
     not closed, at index cIdx of the store: a heuristic of 0 closes it and
     reports the goal found; any other heuristic queues it with that
     priority and its recorded depth as g.
     */
    method VisitChild(cIdx: nat) returns (found: bool)
      requires Valid() && cIdx < |stateLst|
      modifies this`openQ, this`closed
      ensures Valid() && IsPermutation(stateLst[cIdx])
      ensures found <==> stateLst[cIdx] == GoalState
      ensures found ==> closed == old(closed) + [stateLst[cIdx]] && openQ == old(openQ)
      ensures !found ==>
        && closed == old(closed)
        && openQ == old(openQ) + [Entry(HeuristicOf(stateLst[cIdx]), depth[cIdx], stateLst[cIdx])]
    {
      AllLegalAt(stateLst, cIdx);
      var cF := Heuristic(cIdx);
      if cF == 0 {
        HeuristicZeroIffGoal(stateLst[cIdx]);
        closed := closed + [stateLst[cIdx]];
        return true;
      }
      HeuristicZeroIffGoal(stateLst[cIdx]);
      openQ := openQ + [Entry(cF, depth[cIdx], stateLst[cIdx])];
      found := false;
    }

    /**
     The child loop of best_first_search: for each latest child, in order,
     that is not closed, evaluate its heuristic; a child with heuristic 0 is
     appended to closed and ends the loop with found, any other is queued
     with its heuristic as priority and its recorded depth as g. stop is
     the position the loop ended at.
     */
    method EnqueueChildren() returns (found: bool, ghost stop: nat)
      requires Valid()
      modifies this`openQ, this`closed
      ensures Valid()
      ensures stop <= |latestChildren|
      ensures openQ == old(openQ) + Enqueued(stateLst, depth, old(closed), latestChildren[..stop])
      ensures forall k :: 0 <= k < stop ==> latestChildren[k] in old(closed) || latestChildren[k] != GoalState
      ensures found ==>
        && stop < |latestChildren| && latestChildren[stop] == GoalState
        && latestChildren[stop] !in old(closed)
        && closed == old(closed) + [GoalState]
      ensures !found ==> stop == |latestChildren| && closed == old(closed)
    {
      ghost var s, d, lc, c := stateLst, depth, latestChildren, closed;
      for i := 0 to |latestChildren|
        invariant Valid() && stateLst == s && depth == d && latestChildren == lc && closed == c
        invariant openQ == old(openQ) + Enqueued(s, d, c, lc[..i])
        invariant forall k :: 0 <= k < i ==> lc[k] in c || lc[k] != GoalState
      {
        var child := latestChildren[i];
        var cIdx := FirstIndex(stateLst, child);
        EnqueuedStep(s, d, c, lc, i, old(openQ), openQ[|old(openQ)|..]);
        if child !in closed {
          found := VisitChild(cIdx);
          if found {
            stop := i;
            return;
          }
        }
      }
      found, stop := false, |latestChildren|;
      assert latestChildren[..stop] == latestChildren;
    }

    /**
     The first lines of the else-branch of best_first_search: look up the
     index of the popped board cs and expand it. None of the new children
     is closed, since every closed board was stored before.
     */
    method ExpandPopped(cs: Board)
      requires Valid() && cs in stateLst
      modifies this`stateLst, this`latestChildren, this`depth, this`parent, this`depthidx
      ensures Valid()
      ensures depthidx == old(depthidx) + 1
      ensures Expansion(old(stateLst), old(depth), old(parent), FirstIndex(old(stateLst), cs), depthidx,
                        stateLst, depth, parent, latestChildren)
      ensures forall b :: b in latestChildren ==> b in stateLst && b !in closed
      ensures stateLst == old(stateLst) || |Unregistered(stateLst)| < |Unregistered(old(stateLst))|
      ensures old(QueueTagged(openQ, stateLst, depth)) ==> QueueTagged(openQ, stateLst, depth)
      ensures old(Tree()) ==> Tree()
    {
      var csIdx := FirstIndex(stateLst, cs);
      ghost var s0, d0 := stateLst, depth;
      GenerateStates(csIdx);
      StoreGrowth(s0, csIdx, latestChildren, stateLst);
      AppendedProperties(s0, Children(cs));
      if old(QueueTagged(openQ, stateLst, depth)) {
        QueueTaggedExtend(openQ, s0, d0, latestChildren, depth);
      }
    }

    /**
     The else-branch of best_first_search for a popped board cs that is
     not the goal: expand it (see ExpandPopped) and run the child loop.
     Every child is new, so none is closed and the loop reaches each one
     unless it stops at the goal; found says whether the goal was among
     them, and added lists the entries queued.
     */
    method ExpandAndEnqueue(cs: Board) returns (found: bool, ghost added: seq<Entry>)
      requires Valid() && cs in stateLst
      modifies this`stateLst, this`latestChildren, this`depth, this`parent, this`depthidx
      modifies this`openQ, this`closed
      ensures Valid()
      ensures depthidx == old(depthidx) + 1
      ensures Expansion(old(stateLst), old(depth), old(parent), FirstIndex(old(stateLst), cs), depthidx,
                        stateLst, depth, parent, latestChildren)
      ensures found <==> GoalState in latestChildren
      ensures found ==> closed == old(closed) + [GoalState]
      ensures openQ == old(openQ) + added && BoardsOf(added) <= latestChildren
      ensures !found ==>
        && closed == old(closed)
        && added == Enqueued(stateLst, depth, closed, latestChildren)
        && BoardsOf(added) == latestChildren
      ensures latestChildren == [] ==> !found && openQ == old(openQ)
      ensures stateLst == old(stateLst) || |Unregistered(stateLst)| < |Unregistered(old(stateLst))|
      ensures old(QueueTagged(openQ, stateLst, depth)) ==> QueueTagged(openQ, stateLst, depth)
      ensures old(Tree()) ==> Tree()
    {
      ExpandPopped(cs);
      ghost var q1 := openQ;
      ghost var stop;
      found, stop := EnqueueChildren();
      added := Enqueued(stateLst, depth, old(closed), latestChildren[..stop]);
      ChildLoopFacts(stateLst, depth, old(closed), latestChildren, stop, q1);
      if !found {
        assert latestChildren[..stop] == latestChildren;
      }
    }

    /**
     The head of the loop of best_first_search: take the least entry of the
     queue and append its board cs to closed.
     */
    method PopAndClose() returns (cs: Board, ghost e: Entry)
      requires Valid() && openQ != []
      modifies this`openQ, this`closed
      ensures Valid()
      ensures e in old(openQ) && cs == e.board && forall x {:trigger EntryLess(x, e)} :: x in old(openQ) ==> !EntryLess(x, e)
      ensures multiset(openQ) == multiset(old(openQ)) - multiset{e}
      ensures |openQ| == |old(openQ)| - 1
      ensures closed == old(closed) + [cs] && cs in stateLst
      ensures old(QueueTagged(openQ, stateLst, depth)) ==> QueueTagged(openQ, stateLst, depth)
    {
      ghost var tagged := QueueTagged(openQ, stateLst, depth);
      var least := QueueGet();
      e := least;
      if tagged {
        QueueTaggedSubset(openQ, old(openQ), stateLst, depth);
      }
      cs := least.board;
      CloseConsistent(stateLst, depth, parent, openList, closed, latestChildren, openQ, cs);
      closed := closed + [cs];
    }

    /**
     One turn of the loop of best_first_search: take the least entry of the
     queue, close its board cs, and stop if cs is the goal; otherwise expand
     it and run the child loop (see ExpandAndEnqueue), which stops when a
     child is the goal. The tags registered since position n0 stay in
     (lo, depthidx].
     */
    method BfsTurn(ghost n0: nat, ghost lo: nat)
      returns (done: bool, cs: Board, ghost e: Entry, ghost rest: seq<Entry>, ghost added: seq<Entry>, ghost registered: seq<Board>)
      requires Valid() && openQ != []
      requires n0 <= |depth| && lo <= depthidx && forall j :: n0 <= j < |depth| ==> lo < depth[j] <= depthidx
      modifies this`stateLst, this`latestChildren, this`depth, this`parent, this`depthidx
      modifies this`openQ, this`closed
      ensures Valid()
      ensures e in old(openQ) && cs == e.board && forall x {:trigger EntryLess(x, e)} :: x in old(openQ) ==> !EntryLess(x, e)
      ensures cs == GoalState ==> done && closed == old(closed) + [cs] && depthidx == old(depthidx)
      ensures cs != GoalState ==> depthidx == old(depthidx) + 1 && closed == old(closed) + [cs] + (if done then [GoalState] else [])
      ensures done ==> GoalState in stateLst
      ensures stateLst == old(stateLst) + registered && old(depth) <= depth
      ensures multiset(rest) == multiset(old(openQ)) - multiset{e} && openQ == rest + added
      ensures BoardsOf(added) <= registered && (!done ==> BoardsOf(added) == registered)
      ensures forall j :: n0 <= j < |depth| ==> lo < depth[j] <= depthidx
      ensures !done && stateLst != old(stateLst) ==> |Unregistered(stateLst)| < |Unregistered(old(stateLst))|
      ensures !done && stateLst == old(stateLst) ==> |openQ| < |old(openQ)|
      ensures old(QueueTagged(openQ, stateLst, depth)) ==> QueueTagged(openQ, stateLst, depth)
      ensures old(Tree()) ==> Tree()
    {
      cs, e := PopAndClose();
      rest := openQ;
      if cs == GoalState {
        done, added, registered := true, [], [];
        return;
      }
      ghost var d0 := depth;
      done, added := ExpandAndEnqueue(cs);
      registered := latestChildren;
      TagsInRange(d0, n0, lo, depthidx - 1, |latestChildren|, depth);
    }

    /**
     The first lines of best_first_search: queue the first stored board,
     which is the initial board, with priority its heuristic plus its
     depth, and with that depth as g.
     */
    method QueueSeed()
      requires Valid()
      modifies this`openQ
      ensures Valid()
      ensures IsPermutation(stateLst[0])
      ensures openQ == old(openQ) + [Entry(HeuristicOf(stateLst[0]) + depth[0], depth[0], stateLst[0])]
      ensures Rooted() ==> openQ[|openQ| - 1].board == InitState
      ensures old(QueueTagged(openQ, stateLst, depth)) ==> QueueTagged(openQ, stateLst, depth)
    {
      AllLegalAt(stateLst, 0);
      var h := Heuristic(0);
      if QueueTagged(openQ, stateLst, depth) {
        SeedTagged(stateLst, depth, openQ, h);
      }
      var f := h + depth[0];
      var g := depth[0];
      openQ := openQ + [Entry(f, g, stateLst[0])];
    }

    /**
     A turn of the loop of best_first_search (see BfsTurn) as the loop
     records it. queued lists the entries put into the queue, queued0
     first; taken lists the entries taken from it, and gains the one taken
     now. The balance of the queue against q0, the queue when queued0 was
     put, is kept; the boards put are never put twice, and when the turn
     does not stop they are the first stored board and every board
     registered from position n0 on.
     */
    method TracedBfsTurn(ghost n0: nat, ghost lo: nat, ghost q0: seq<Entry>, ghost queued0: seq<Entry>,
                         ghost queued: seq<Entry>, ghost taken: seq<Entry>)
      returns (done: bool, cs: Board, ghost queued': seq<Entry>, ghost taken': seq<Entry>)
      requires Valid() && openQ != []
      requires 1 <= n0 <= |depth| && lo <= depthidx && forall j :: n0 <= j < |depth| ==> lo < depth[j] <= depthidx
      requires Traced(queued, stateLst, n0) && queued0 <= queued
      requires multiset(q0) + multiset(queued[|queued0|..]) == multiset(openQ) + multiset(taken)
      modifies this`stateLst, this`latestChildren, this`depth, this`parent, this`depthidx
      modifies this`openQ, this`closed
      ensures Valid()
      ensures cs == GoalState ==> done && closed == old(closed) + [cs] && depthidx == old(depthidx)
      ensures cs != GoalState ==> depthidx == old(depthidx) + 1 && closed == old(closed) + [cs] + (if done then [GoalState] else [])
      ensures done ==> GoalState in stateLst
      ensures old(stateLst) <= stateLst && old(depth) <= depth
      ensures forall j :: n0 <= j < |depth| ==> lo < depth[j] <= depthidx
      ensures BoardsOf(taken') == BoardsOf(taken) + [cs]
      ensures queued <= queued' && multiset(q0) + multiset(queued'[|queued0|..]) == multiset(openQ) + multiset(taken')
      ensures NoDup(BoardsOf(queued')) && BoardsOf(queued') <= [stateLst[0]] + stateLst[n0..]
      ensures !done ==> Traced(queued', stateLst, n0)
      ensures !done && stateLst != old(stateLst) ==> |Unregistered(stateLst)| < |Unregistered(old(stateLst))|
      ensures !done && stateLst == old(stateLst) ==> |openQ| < |old(openQ)|
      ensures old(QueueTagged(openQ, stateLst, depth)) ==> QueueTagged(openQ, stateLst, depth)
      ensures old(Tree()) ==> Tree()
    {
      ghost var s0, q := stateLst, openQ;
      ghost var e, rest, added, registered;
      done, cs, e, rest, added, registered := BfsTurn(n0, lo);
      TurnRecord(s0, registered, n0, q0, queued0, queued, taken, q, e, rest, added);
      queued', taken' := queued + added, taken + [e];
    }

    /**
     The loop of best_first_search: run turns (see TracedBfsTurn) until one
     stops at the goal, returning True, or the queue runs empty, returning
     None. expanded lists the boards taken from the queue and expanded, in
     order; taken lists the entries taken; queued extends queued0, the
     entries put into the queue so far, by the entries the turns put.
     */
    method SearchQueue(ghost queued0: seq<Entry>)
      returns (r: Option<bool>, ghost expanded: seq<Board>, ghost queued: seq<Entry>, ghost taken: seq<Entry>)
      requires Valid() && Traced(queued0, stateLst, |stateLst|)
      modifies this`stateLst, this`latestChildren, this`depth, this`parent, this`depthidx
      modifies this`openQ, this`closed
      ensures Valid()
      ensures r == None || r == Some(true)
      ensures r == None ==> openQ == [] && closed == old(closed) + expanded && BoardsOf(taken) == expanded
      ensures r == Some(true) ==>
        && GoalState in stateLst && closed == old(closed) + expanded + [GoalState]
        && (BoardsOf(taken) == expanded || BoardsOf(taken) == expanded + [GoalState])
      ensures forall k :: 0 <= k < |expanded| ==> expanded[k] != GoalState
      ensures depthidx == old(depthidx) + |expanded|
      ensures old(stateLst) <= stateLst && old(depth) <= depth
      ensures forall j :: |old(stateLst)| <= j < |stateLst| ==> old(depthidx) < depth[j] <= depthidx
      ensures queued0 <= queued
      ensures multiset(old(openQ)) + multiset(queued[|queued0|..]) == multiset(openQ) + multiset(taken)
      ensures NoDup(BoardsOf(queued)) && BoardsOf(queued) <= [stateLst[0]] + stateLst[|old(stateLst)|..]
      ensures r == None ==> Traced(queued, stateLst, |old(stateLst)|)
      ensures old(QueueTagged(openQ, stateLst, depth)) ==> QueueTagged(openQ, stateLst, depth)
      ensures old(Tree()) ==> Tree()
    {
      ghost var tagged := QueueTagged(openQ, stateLst, depth);
      expanded, queued, taken := [], queued0, [];
      assert queued[|queued0|..] == [];
      while openQ != []
        invariant Valid()
        invariant old(stateLst) <= stateLst && old(depth) <= depth
        invariant closed == old(closed) + expanded && BoardsOf(taken) == expanded
        invariant forall k :: 0 <= k < |expanded| ==> expanded[k] != GoalState
        invariant depthidx == old(depthidx) + |expanded|
        invariant forall j :: |old(stateLst)| <= j < |depth| ==> old(depthidx) < depth[j] <= depthidx
        invariant tagged ==> QueueTagged(openQ, stateLst, depth)
        invariant old(Tree()) ==> Tree()
        invariant Traced(queued, stateLst, |old(stateLst)|) && queued0 <= queued
        invariant multiset(old(openQ)) + multiset(queued[|queued0|..]) == multiset(openQ) + multiset(taken)
        decreases |Unregistered(stateLst)|, |openQ|
      {
        var done, cs;
        done, cs, queued, taken := TracedBfsTurn(|old(stateLst)|, old(depthidx), old(openQ), queued0, queued, taken);
        if cs != GoalState {
          SnocAssoc(old(closed), expanded, cs);
          expanded := expanded + [cs];
        }
        if done {
          r := Some(true);
          return;
        }
      }
      TracedNoDup(queued, stateLst, |old(stateLst)|);
      r := None;
    }

    /**
     best_first_search: queue the initial board with priority heuristic
     plus depth (see QueueSeed), then run the loop (see SearchQueue).
     queued lists the entries put into the queue, the seed first: no board
     is put twice, and when the queue runs empty the boards put are the
     initial board and every board registered during the search. taken
     lists the entries taken: every entry queued before or put is still
     queued or was taken, counted with multiplicity.
     */
    method BestFirstSearch()
      returns (r: Option<bool>, ghost expanded: seq<Board>, ghost queued: seq<Entry>, ghost taken: seq<Entry>)
      requires Valid()
      modifies this`stateLst, this`latestChildren, this`depth, this`parent, this`depthidx
      modifies this`openQ, this`closed
      ensures Valid()
      ensures r == None || r == Some(true)
      ensures r == None ==> openQ == [] && closed == old(closed) + expanded && BoardsOf(taken) == expanded
      ensures r == Some(true) ==>
        && GoalState in stateLst && closed == old(closed) + expanded + [GoalState]
        && (BoardsOf(taken) == expanded || BoardsOf(taken) == expanded + [GoalState])
      ensures forall k :: 0 <= k < |expanded| ==> expanded[k] != GoalState
      ensures depthidx == old(depthidx) + |expanded|
      ensures old(stateLst) <= stateLst && old(depth) <= depth
      ensures forall j :: |old(stateLst)| <= j < |stateLst| ==> old(depthidx) < depth[j] <= depthidx
      ensures |queued| >= 1 && queued[0].board == old(stateLst)[0] && queued[0].g == 0
      ensures old(Rooted()) ==> queued[0].board == InitState
      ensures multiset(old(openQ)) + multiset(queued) == multiset(openQ) + multiset(taken)
      ensures NoDup(BoardsOf(queued)) && BoardsOf(queued) <= [stateLst[0]] + stateLst[|old(stateLst)|..]
      ensures r == None ==> Traced(queued, stateLst, |old(stateLst)|)
      ensures old(QueueTagged(openQ, stateLst, depth)) ==> QueueTagged(openQ, stateLst, depth)
      ensures old(Tree()) ==> Tree()
    {
      QueueSeed();
      ghost var seed := openQ[|openQ| - 1];
      queued := [seed];
      assert stateLst[|stateLst|..] == [];
      r, expanded, queued, taken := SearchQueue(queued);
      assert queued == [seed] + queued[1..];
    }
  }
}
