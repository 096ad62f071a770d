# 8-puzzle solver: a Dafny model of `EightPuzzle`

This project models the `EightPuzzle` class of `8-puzzle.py`: the state
store (`state_lst` with its parallel `depth` list), the scans `find_coord`
and `find_goalstate_coord`, the move generator `get_new_moves`, the
expansion step `generate_states`, the Manhattan `heuristic`, and the two
search drivers `depth_first_search` (depth-limited, stack-based) and
`best_first_search` (priority queue of `(f, g, board)` tuples).

A board is the 3x3 grid flattened row by row (`seq<int>`, cell `(r, c)` at
index `3r + c`, 0 the blank). The value-level meaning of each step is given
by functions and predicates (`Children`, `Appended`, `HeuristicOf`,
`Expansion`, `DfsExpansion`, `Enqueued`, `StackTrace`). The class methods
mirror the source's loops and field updates and are proved against those
functions:

- `grid.dfy` (module `Grid`): geometry, the two fixed boards, the row-major
  scan, legal moves, slides and children.
- `manhattan.dfy` (module `Manhattan`): the heuristic as a sum of nine
  Manhattan terms, and the proof that it is zero exactly on the goal board.
- `store.dfy` (module `Store`): "append if not present" (`Appended`),
  duplicate-freedom, and the finite board space (base-9 codes) that bounds
  how often a store can grow.
- `frontier.dfy` (module `Frontier`): queue entries and Python's tuple
  order on them; `MinIndex` finds the entry `PriorityQueue.get` returns.
- `enqueue.dfy` (module `Enqueue`): the entries the child loop of
  `best_first_search` queues, and the record of the queue's history.
- `puzzle.dfy` (module `Puzzle`): class `EightPuzzle` and its methods.
- `initial.dfy` (module `Initial`): the first expansion from the fixed
  initial board, worked out concretely.

Both searches are proved to terminate. A turn either registers a new board,
which can only happen finitely often because there are `9^9` sequences of
nine values, or it shrinks a measure of the frontier.

The model follows the code as written; in particular:

- `best_first_search` queues a child with its heuristic alone as priority
  (`c_f`). Only the seed gets heuristic plus depth. The priorities taken
  from the queue therefore need not grow. `Initial.FirstBestFirstTurn`
  shows this: the seed has priority 6 and the first child is queued as
  `(4, 1, child)`.
- `generate_states` increments `depthidx` on every call. In
  `best_first_search` the tag `g` of a child is therefore the number of
  expansions so far, not its depth in the move tree.
- When `depth_first_search` pops a board deeper than the limit, it does not
  expand it. It still runs the push loop over the stale `latest_children`
  of the previous expansion.
- A child whose heuristic is 0 is appended to `closed`, and
  `best_first_search` returns `True` without queueing it.
- When the queue runs empty, `best_first_search` falls off its loop and
  returns `None`.

The `opened` list is the field `openList`. The ghost field `parent`
records, for each stored board, the index of the board whose expansion
registered it. With it, `Tree()` states that the store is a tree of legal
moves.

## Model

| member | source | states |
|---|---|---|
| Grid.InitIsPermutation | 8-puzzle.py:14-16 | the initial board holds each of 0..8 exactly once |
| Grid.GoalIsPermutation | 8-puzzle.py:18-20 | the goal board holds each of 0..8 exactly once |
| Grid.FirstIndex | 8-puzzle.py:113 | defines `list.index`: the position of the first occurrence of x in s, for an x that occurs in s |
| Grid.FindGoalstateCoord | 8-puzzle.py:126-130 | the row-major scan shared by find_coord and find_goalstate_coord: the returned cell is on the grid and holds the value |
| Grid.ScanFindsFirst | 8-puzzle.py:126-130 | no cell before the returned one, in row-major order, holds the value: it is the first match of the nested scan |
| Grid.FindInPermutation | 8-puzzle.py:126-130 | on a legal board the scan for the value at cell c returns c |
| Grid.LegalMoves | 8-puzzle.py:56-67 | defines the moves of a blank cell: its neighbours above, left, below and right, in that order, each kept only when it is on the grid |
| Grid.LegalMovesUnfold | 8-puzzle.py:56-67 | the moves are the conditional appends up, left, down, right, in that order |
| Grid.LegalMovesSpec | 8-puzzle.py:56-67 | the moves are exactly the on-grid orthogonal neighbours of the blank, without repeats: two in a corner, three on an edge, four in the centre |
| Grid.Slide | 8-puzzle.py:88-94 | defines one move on a copy of the board: the tile's value is written to the blank's cell, then 0 to the tile's cell |
| Grid.SlideIsSwap | 8-puzzle.py:88-94 | moving the tile into the blank and zeroing the tile's cell swaps the two cells and keeps the board legal |
| Grid.SlideBack | 8-puzzle.py:88-94 | sliding the tile back undoes the move |
| Grid.Children | 8-puzzle.py:85-94 | defines the clones of generate_states: one slide of the blank per legal move, in move order, as many as there are moves |
| Grid.ChildrenAreMoves | 8-puzzle.py:85-94 | at most four children; the i-th is the parent with the blank swapped with the i-th legal move's cell, and is a legal board |
| Grid.ChildIsMove | 8-puzzle.py:85-94 | every child is one legal move away from its parent |
| Grid.ChildOfChild | 8-puzzle.py:85-94 | every child is legal and has its parent among its own children: moves are reversible |
| Manhattan.GoalCoord | 8-puzzle.py:18-20 | defines the cell that each value 0..8 occupies on the goal board |
| Manhattan.TileDistance | 8-puzzle.py:135-137 | defines one term of the score: the row distance plus the column distance between the value's cell on the board and its goal cell |
| Manhattan.HeuristicOf | 8-puzzle.py:132-138 | defines heuristic: the sum of the terms for the values 0..8, the blank included |
| Manhattan.GoalCoordIsScan | 8-puzzle.py:126-130 | the goal cells used by the heuristic are those find_goalstate_coord returns on the goal board |
| Manhattan.HeuristicUpToZero | 8-puzzle.py:132-138 | a partial sum of the heuristic is zero exactly when each of its terms is |
| Manhattan.AllInPlaceIsGoal | 8-puzzle.py:132-138 | a board whose every value is at its goal cell is the goal board |
| Manhattan.HeuristicZeroIffGoal | 8-puzzle.py:132-138 | the heuristic is zero if and only if the board is the goal board (the test at line 156 is therefore a goal test) |
| Store.Appended | 8-puzzle.py:96-99 | defines "append if not in the list": the candidates, in their order, that are neither known nor equal to a candidate appended before them |
| Store.AppendedProperties | 8-puzzle.py:96-99 | what "append if not in the list" adds is duplicate-free and new, every candidate ends up known or added, and a duplicate-free list stays duplicate-free |
| Store.AppendedGrow | 8-puzzle.py:96-99 | a candidate that is neither known nor added is appended |
| Store.AppendedSkip | 8-puzzle.py:96-99 | a candidate already known or added leaves the additions unchanged |
| Store.DecodeCode | 8-puzzle.py:96-97 | every sequence of nine values in 0..8 is the decoding of its base-9 code below 9^9: the boards a store can register are finitely many |
| Store.RegisteringShrinks | 8-puzzle.py:96-97 | registering a new legal board shrinks the set of unregistered boards |
| Store.PopPushShrinks | 8-puzzle.py:118-122 | closing the popped board and pushing new boards shrinks the stored boards that are neither on the stack nor closed by at least the number pushed |
| Frontier.EntryLess | 8-puzzle.py:143-145 | defines the order of the queue's tuples: by f, then by g, then by the board compared lexicographically |
| Frontier.EntryLessOrder | 8-puzzle.py:143-145 | the tuple order on (f, g, board) is irreflexive, transitive and total |
| Frontier.MinIndex | 8-puzzle.py:145 | the chosen position holds an entry that no entry of the queue is less than |
| Frontier.LeastIsUnique | 8-puzzle.py:145 | a least entry is unique, so get() is determined |
| Enqueue.ChildEntry | 8-puzzle.py:153-159 | defines the tuple put for a child: its heuristic, the depth recorded at its first index in the store, and the child |
| Enqueue.Enqueued | 8-puzzle.py:152-159 | defines what the child loop puts: the tuple of each candidate that is not closed, in candidate order |
| Enqueue.EnqueuedStep | 8-puzzle.py:152-159 | one turn of the child loop: a closed child queues nothing, any other queues (heuristic, recorded depth, child) |
| Enqueue.EnqueuedProperties | 8-puzzle.py:152-159 | every queued entry belongs to a candidate that is not closed and carries that board's heuristic and recorded depth |
| Enqueue.EnqueuedAllOpen | 8-puzzle.py:152-159 | when no candidate is closed, every candidate is queued, in order |
| Enqueue.ChildLoopFacts | 8-puzzle.py:152-159 | after a child loop that stopped at some position, the boards queued are exactly the children before it, and a tagged queue stays tagged |
| Enqueue.QueuedStep | 8-puzzle.py:151-159 | the boards ever put into open_q are the first stored board and the boards registered since, each at most once |
| Enqueue.QueueBalance | 8-puzzle.py:145-159 | taking one entry and putting some keeps the balance: everything queued at the start or put since is still queued or was taken, counted with multiplicity |
| Enqueue.TurnRecord | 8-puzzle.py:144-159 | one loop turn extends the record of puts and takes, keeps the balance, and puts no board twice |
| Enqueue.TracedNoDup | 8-puzzle.py:144-159 | a record of puts that matches the store never holds a board twice |
| Enqueue.QueueTaggedExtend | 8-puzzle.py:96-99 | registering more boards keeps every queued entry's (heuristic, recorded depth) tag valid |
| Puzzle.Reversed | 8-puzzle.py:120 | defines `reversed`: position k of the result holds the element at position length-1-k |
| Puzzle.Expansion | 8-puzzle.py:72-99 | defines generate_states on values: latest_children is the children of board i that are not yet stored, in move order; the store grows by them, each tagged with the given depth and with i as parent |
| Puzzle.DfsExpansion | 8-puzzle.py:113-116 | defines the depth-limited step of depth_first_search: when the popped board's recorded depth is at most 5, depthidx becomes that depth plus one and the board is expanded; otherwise the store, the tags, latest_children and depthidx are unchanged |
| Puzzle.CloneStep | 8-puzzle.py:85-99 | one turn of the move loop: a clone already stored changes nothing; a new one is appended to the store and to latest_children, and tagged |
| Puzzle.LinkedExtend | 8-puzzle.py:96-99 | appending boards one move away from a stored board, with it as their parent, keeps the store a tree of moves |
| Puzzle.ExpansionLinked | 8-puzzle.py:72-99 | expanding a stored board keeps the store a tree of moves |
| Puzzle.ExpansionKeepsStore | 8-puzzle.py:72-99 | expanding a stored board keeps the store duplicate-free, legal and parallel to depth, with the initial board at depth 0 |
| Puzzle.ExpansionKeepsConsistent | 8-puzzle.py:72-99 | expanding keeps every board on the stack, closed or queued a stored one; the new children become latest_children |
| Puzzle.PushStep | 8-puzzle.py:120-122 | one turn of the push loop: a child is pushed exactly when it is on neither the stack nor closed |
| Puzzle.PushKeepsConsistent | 8-puzzle.py:120-122 | after the push loop every latest child is on the stack or closed, and a clean frontier stays clean |
| Puzzle.PopConsistent | 8-puzzle.py:106 | the popped top of the stack is a stored board |
| Puzzle.PopKeepsClean | 8-puzzle.py:106-118 | the popped board is on neither the rest of the stack nor closed, so closing it keeps the frontier duplicate-free |
| Puzzle.StackTraceSnoc | 8-puzzle.py:105-106 | each popped board is the top of the stack it was popped from, and each stack keeps the previous one, less its top |
| Puzzle.TagsExtend | 8-puzzle.py:113-116 | tagging the children of a board within the depth limit with its depth plus one keeps every tag one more than its parent's |
| Puzzle.ExpansionFacts | 8-puzzle.py:113-116 | an expansion in depth_first_search only grows the store, shrinks the unregistered space when it grows, and keeps tags tied to parents |
| Puzzle.StoreGrowth | 8-puzzle.py:96-99 | the store only grows, and when it grows the unregistered space shrinks |
| Puzzle.TagsInRange | 8-puzzle.py:72-99 | the tags registered during best_first_search lie between depthidx at its start and depthidx now |
| Puzzle.SeedTagged | 8-puzzle.py:141-143 | the seed entry carries the first board's heuristic plus depth, its depth, and the board |
| Puzzle.EightPuzzle.constructor | 8-puzzle.py:23-34 | the store holds the initial board at depth 0, depthidx is 0, the other lists and the queue are empty; the invariants hold |
| Puzzle.EightPuzzle.FindCoord | 8-puzzle.py:48-52 | the nested loops return the first row-major cell of the stored board that holds the value |
| Puzzle.EightPuzzle.GetNewMoves | 8-puzzle.py:56-67 | the conditional appends build exactly the legal moves of the blank |
| Puzzle.EightPuzzle.Heuristic | 8-puzzle.py:132-138 | the accumulator loop returns the Manhattan sum over the nine values, the blank included |
| Puzzle.EightPuzzle.CloneMoves | 8-puzzle.py:85-99 | the loop appends exactly the new children, in move order, to the store and latest_children, each tagged with depthidx |
| Puzzle.EightPuzzle.GenerateStates | 8-puzzle.py:72-99 | depthidx grows by one; the store grows by the new children of the board, tagged with the new depthidx, which become latest_children; the invariants and the move tree are kept |
| Puzzle.EightPuzzle.QueueGet | 8-puzzle.py:145 | removes the unique least entry and keeps the rest, as a multiset |
| Puzzle.EightPuzzle.PushUnseenChildren | 8-puzzle.py:120-122 | pushes the reversed latest children that are on neither the stack nor closed, in that order |
| Puzzle.EightPuzzle.ExpandAndClose | 8-puzzle.py:113-118 | expands the board, with depthidx set to its recorded depth, when that depth is at most 5, and otherwise changes nothing; closes it either way |
| Puzzle.EightPuzzle.ExpandCloseAndPush | 8-puzzle.py:113-122 | ExpandAndClose's outcome, then the exact new stack; the turn registers a board or shrinks the unseen frontier |
| Puzzle.EightPuzzle.DfsTurn | 8-puzzle.py:106-122 | pops the top; on the goal only the stack changes; otherwise closes it, expands it per the depth test, and pushes the stated children onto the rest of the stack |
| Puzzle.EightPuzzle.TracedDfsTurn | 8-puzzle.py:105-122 | a DfsTurn whose popped board and stack join the trace of the search |
| Puzzle.EightPuzzle.SearchStack | 8-puzzle.py:105-124 | pops until the goal is the top (True) or the stack is empty (False); each popped board is the top of its stack, every board popped before the goal is closed, and nothing popped earlier is the goal |
| Puzzle.EightPuzzle.DepthFirstSearch | 8-puzzle.py:102-124 | pushes the initial board, which is popped first; True exactly when the goal is popped, with the stack left as it was below it; False only with an empty stack |
| Puzzle.EightPuzzle.VisitChild | 8-puzzle.py:153-159 | for a child that is not closed: heuristic 0 (that is, the goal) closes it and reports found; otherwise queues (heuristic, recorded depth, child) |
| Puzzle.EightPuzzle.EnqueueChildren | 8-puzzle.py:152-159 | the child loop queues the entries of the children up to where it stopped, skipping closed ones; it stops only at a goal child that was not closed, and closes it |
| Puzzle.EightPuzzle.ExpandPopped | 8-puzzle.py:150-151 | looks up the popped board's first index, expands it, and none of the new children is closed |
| Puzzle.EightPuzzle.ExpandAndEnqueue | 8-puzzle.py:150-159 | expansion plus child loop: found exactly when the goal is among the new children; otherwise every new child is queued, in order |
| Puzzle.EightPuzzle.PopAndClose | 8-puzzle.py:145-146 | takes the least entry and closes its board |
| Puzzle.EightPuzzle.BfsTurn | 8-puzzle.py:145-159 | one loop turn: stops at a goal taken from the queue, or at a goal child; otherwise queues every new child and depthidx grows by one |
| Puzzle.EightPuzzle.QueueSeed | 8-puzzle.py:141-143 | queues (heuristic + depth, depth, board) for the first stored board, which is the initial board |
| Puzzle.EightPuzzle.TracedBfsTurn | 8-puzzle.py:144-159 | a BfsTurn recorded in the traces of puts and takes, with the queue's balance kept |
| Puzzle.EightPuzzle.SearchQueue | 8-puzzle.py:144-159 | runs turns until the goal is found (Some(true), with the goal closed last) or the queue is empty (None); every board taken and expanded is closed, and none of them is the goal |
| Puzzle.EightPuzzle.BestFirstSearch | 8-puzzle.py:140-159 | seeds the queue with the initial board, then SearchQueue; no board is ever queued twice; when the queue runs empty, the boards queued are exactly the initial board and every board registered during the search; and every entry queued is still queued or was taken |
| Initial.InitChildren | 8-puzzle.py:56-94 | the initial board's blank is at (2, 1); its moves are up, left, right, giving three named children |
| Initial.InitChildrenAllNew | 8-puzzle.py:96-99 | all three children are new, so all are registered |
| Initial.FirstExpansion | 8-puzzle.py:72-99 | expanding the initial board alone in the store, with tag 1, appends exactly its three children at depth 1 |
| Initial.HeuristicUpToCells | 8-puzzle.py:132-138 | on a legal board the heuristic's partial sums are the distances of the cells holding each value from their goal cells |
| Initial.HeuristicOfCells | 8-puzzle.py:132-138 | the heuristic of a legal board is the distance sum over the cells holding its values |
| Initial.InitHeuristic | 8-puzzle.py:132-138 | the heuristic of the initial board is 6 |
| Initial.InitUpHeuristic | 8-puzzle.py:132-138 | the heuristic of its first child (blank moved up) is 4 |
| Initial.FirstEntries | 8-puzzle.py:141-159 | the seed's priority is 6; the first child is queued as (4, 1, child): its priority is its heuristic alone |
| Initial.FirstBestFirstTurn | 8-puzzle.py:140-159 | from a fresh puzzle, the first expansion registers three children at depth 1, and the first entry the child loop queues has priority 4, below the seed's 6, and not 4 + 1 |

## Left out

- `find_coord` and `find_goalstate_coord` return `None` when the value is not on the board (8-puzzle.py:48-52, 126-130). The model requires `HasAllTiles` or `value in goalState` instead. Every stored board and both fixed boards are legal (`StoreInvariant`), so the searches never reach that case.
- The `print(CS)` at 8-puzzle.py:109, `display` and `main` are output only and are not modelled.
- `visited` (8-puzzle.py:34) is never used by the program and is not modelled.
- `deepcopy` and the row aliasing behind `state_lst[0]` (8-puzzle.py:26, 88) are not modelled. Boards are values, so a clone can never alias the board it was copied from. The source copies deeply before it writes, so it never mutates a stored board either.
- `queue.PriorityQueue` is modelled as a sequence of entries in insertion order. `get` removes the least entry (`Frontier.MinIndex`). The heap, its locking and its tie-breaking are not modelled; `Frontier.LeastIsUnique` shows that ties cannot arise between different entries. Python compares boards as lists of rows. For rows of equal length that is the lexicographic order on the flattened board, which is the order modelled here.
- `best_first_search` returns `True` or `None`. Its result is `Option<bool>`: `Some(true)` or `None`.
- The list `opened` is the field `openList`. The ghost field `parent` and the ghost out-parameters of the search methods (traces of popped boards, stacks, and queue entries put and taken) are added to state the searches' history. The program has none of them.
- That `best_first_search` returns `True` when started from the two fixed boards is not proved. The model proves what each turn does, that the search terminates, and that the first turn behaves as `Initial.FirstBestFirstTurn` states. Running the search to completion on the constant boards is beyond what the verifier can unfold.
- The priorities taken from the queue do not always grow, and a child's priority is its heuristic alone, not its heuristic plus its depth (8-puzzle.py:155-159): neither is claimed. The seed has priority 6 and the first child of the initial board is queued with priority 4 at depth 1 (`Initial.FirstBestFirstTurn`).
- Puzzle.EightPuzzle.BestFirstSearch: queues the first stored board where the source queues the constant `_init_state` (8-puzzle.py:143). The two coincide on every object the constructor builds. The contract states this as `old(Rooted()) ==> queued[0].board == InitState` rather than requiring `Rooted()`, which keeps the constant board out of the proof's context.
- Python's `list.index` raising `ValueError` (8-puzzle.py:113, 150, 153) is not modelled: the invariant keeps every board on the stack, closed, or among the latest children in the store.
