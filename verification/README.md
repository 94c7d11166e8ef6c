# Fifteen puzzle solvers, modelled in Dafny

The repository is a terminal game of the sliding-tile puzzle, played on boards
from 3x3 up to 9x9. Besides the game itself it contains the machinery that
solves boards:

* `generate_dim3_solutions.c` runs a breadth-first search over every 3x3 board
  reachable from the solved one. It records for each board, indexed by the
  Lehmer-like (Myrvold–Ruskey) rank of its permutation, which tile to slide
  next.
* `generate_dim4_heuristics.c` builds the 4x4 additive pattern database. Three
  disjoint tile patterns (6, 6 and 3 tiles) each get a breadth-first search in
  which only moves of pattern tiles cost 1. Each pattern's slice of one byte
  table holds a lower bound on the number of moves that pattern's tiles need.
* `standalone_dim4_solver.c` and `dim4_solver.c` solve 4x4 boards by IDA*
  (iterative-deepening depth-first search). The heuristic is the larger of
  two sums of the database: one for the board and one for its reflection
  about the main diagonal. The standalone program reads boards from text,
  rejects unsolvable ones by a parity test, and prints the moves.
* `logic.c` holds the game. It sets up boards (random, standard, solved,
  trivial, almost) and repairs odd parity. It slides by key or by tile,
  recognises the solved board and ranks 3x3 boards. Its `god_mode` solves any
  board: it reduces the outer rows and columns with `general_solver.c`, the
  last 4x4 block with the IDA* solver, and 3x3 boards with the generated table.
* `general_solver.c` brings one tile at a time to its home cell. It walks the
  empty cell around the target without disturbing tiles already placed. It has
  special manoeuvres for the last tile of a row and of a column.

The model keeps each file's form. The queues, the BFS generators, the IDA*
node, the game's `struct puzzle` and the in-place sorts are classes and arrays
with loops and invariants. Ranking, pattern indices, heuristics and move
geometry are functions with lemmas. Every search is tied to a specification
function:
* the ranking loop computes `Rank`, a bijection onto `0 .. n! - 1`;
* the dim-3 BFS leaves a table entry for every reachable board, and following
  the entries from a board reaches the solved board by a shortest walk;
* the pattern database holds lower bounds on the pattern cost of every walk;
* IDA* returns a legal, non-reversing walk to the solved board, which is
  shortest when the table is admissible;
* the general solver keeps every placed tile where it is and keeps the board's
  parity invariant, the condition every solvable board meets.

Modules:

| module | file | models |
|---|---|---|
| `Common` | common.dfy | permutations, powers, factorials, solved boards |
| `Geometry` | geometry.dfy | cell neighbours, `valid_moves` tables, moves, `dim4.h` patterns and slices |
| `Ranking` | ranking.dfy | `permuation_rank` (a Lehmer-like, Myrvold–Ruskey rank) and its inverse |
| `Queues` | queue.dfy | the generators' linked-list queue |
| `SolutionGraph` | solution_graph.dfy | the 3x3 BFS of `generate_dim3_solutions.c` |
| `PatternIndex` | pattern_index.dfy | `arr_index` in its three versions |
| `PatternDatabase` | pattern_database.dfy | `bfs_tile_pattern` and `main` of `generate_dim4_heuristics.c` |
| `Heuristic` | heuristic.dfy | `get_heurisitic` |
| `IdaSearch` | ida_search.dfy | `depth_first_search` and the IDA* loop |
| `Standalone` | standalone.dfy | the standalone program's input, output and driver |
| `Parity`, `Solvability` | parity.dfy | `swap`, `quicksort`, `is_solvable` |
| `CornerSolver` | corner_solver.dfy | `dim4_solver` of `dim4_solver.c` (the bottom-right 4x4 block) |
| `Game` | puzzle.dfy | `struct puzzle`, `init`, `slide`, `slide_tile`, `is_solved`, `permuation_rank` of `logic.c` |
| `GeneralMoves` | general_moves.dfy | the empty-cell and target manoeuvres of `general_solver.c` |
| `GeneralSolver` | general_solver.dfy | `arrange_row`, `arrange_column` and the outer loop of `god_mode` |

A board of side n is a sequence of n * n cells in row-major order. 0 is the
empty cell. Direction d = 0, 1, 2, 3 moves the empty cell up, right, down,
left. `Neighbour(n, i, d)` is the cell the empty cell reaches, or -1 off the
board. The game's keys name the tile's motion: 'l' moves the empty cell right,
'r' left, 'u' down and 'd' up.

## Model

| member | source | states |
|---|---|---|
| Common.SolvedIsPermutation | logic.c:137-143 | the solved board 1, 2, ..., n-1, 0 is a permutation of 0 .. n-1 |
| Geometry.NeighbourIsAdjacent | dim4.h:44-55 | direction 0 reaches the cell above, 1 the right, 2 below, 3 the left; the answer is -1 exactly when that cell is off the board |
| Geometry.NeighbourSymmetric | generate_dim3_solutions.c:170-176 | moving the empty cell and then back in the opposite direction returns to the start |
| Geometry.MoveIsSwap | generate_dim3_solutions.c:174-176 | a move exchanges the empty cell with its neighbour, and the move back restores the board |
| Geometry.UndoRestores | generate_dim3_solutions.c:200-202 | the undo after exploring a child restores the parent board exactly |
| Geometry.MakeMoveOn | generate_dim4_heuristics.c:305-306 | the in-place move on the board array leaves the array equal to the moved board |
| Geometry.UndoMoveOn | generate_dim4_heuristics.c:353-354 | the in-place undo puts the tile back at the moved-to cell and 0 back at the empty cell |
| Geometry.ValidMoves4IsNeighbourTable | dim4.h:56-60 | every entry of the literal 4x4 table is the neighbour in that direction, or -1 off the board |
| Geometry.LookupValidMove4 | dim4.h:56-60 | a table lookup returns the neighbour in that direction |
| Geometry.DocumentedRows4 | dim4.h:44-55 | rows 6, 8 and 15 of the table are the ones its comment describes |
| Geometry.MoveCounts4 | dim4.h:44-60 | the four corners have two moves, the four centre cells four, every edge cell three |
| Geometry.DocumentedRow3 | generate_dim3_solutions.c:95-107 | row 5 of the 3x3 table is up 2, none right, down 8, left 4 |
| Geometry.BuildValidMoves3 | generate_dim3_solutions.c:109-120 | the computed 9x4 table holds the neighbour of every cell in every direction |
| Geometry.PowersOf16 | dim4.h:22-27 | the slices of the 6, 6 and 3 tile patterns hold 16^6, 16^6 and 16^3 entries (`TOTAL_STATES` 33558528 in all), and the visited table 16^7 |
| Geometry.PatternTilesDistinct | dim4.h:14-16 | each pattern lists distinct tiles from 1 .. 15 |
| Geometry.PatternsDisjoint | dim4.h:14-16 | no tile lies in two patterns |
| Geometry.PatternsCoverTiles | dim4.h:14-20 | together the patterns hold exactly the tiles 1 .. 15, and their lengths sum to 15 |
| Geometry.SlicesFitTable | dim4.h:22-27 | each pattern's slice lies inside the table; the slices follow each other without overlap and the last ends at the table's size |
| Ranking.RankFromBelowFactorial | generate_dim3_solutions.c:263-268 | the rank of a permutation of n values is below n! |
| Ranking.RankBelowFactorial | generate_dim3_solutions.c:263-268 | a 9-cell board's rank indexes the 9! table |
| Ranking.UnrankRearranges | generate_dim3_solutions.c:263-268 | unranking reorders the given values, so it yields a permutation |
| Ranking.RankOfUnrank | generate_dim3_solutions.c:263-268 | ranking an unranked number gives that number back |
| Ranking.UnrankOfRank | generate_dim3_solutions.c:263-268 | unranking a permutation's rank gives the permutation back |
| Ranking.RankInjective | generate_dim3_solutions.c:263-268 | two different permutations have different ranks |
| Ranking.RankSurjective | generate_dim3_solutions.c:263-268 | every number below n! is the rank of some permutation |
| Ranking.WorkedExample | generate_dim3_solutions.c:309-331 | the commented example 2 0 1 4 3 ranks to 82 |
| Ranking.RankLoopStart | generate_dim3_solutions.c:333-340 | the loop invariant holds after the identity arrays are set up |
| Ranking.RankLoopStep | generate_dim3_solutions.c:347-362 | one loop iteration keeps the invariant: remaining values, their positions and the partial rank |
| Ranking.RankLoopEnd | generate_dim3_solutions.c:362-365 | when the loop ends the accumulated rank is the rank of the board |
| Ranking.InitIdentity | generate_dim3_solutions.c:333-340 | the set-up loop fills numbers and positions with the identity |
| Ranking.ConsumeNext | generate_dim3_solutions.c:347-362 | the in-place removal of one value keeps the arrays consistent with the remaining values |
| Ranking.PermutationRank | generate_dim3_solutions.c:269-365 | the returned value is the rank of the board |
| Queues.Queue.constructor | generate_dim3_solutions.c:145-151 | a new queue is empty |
| Queues.Queue.Enqueue | generate_dim3_solutions.c:230-244 | the node is added at the back |
| Queues.Queue.Dequeue | generate_dim3_solutions.c:249-261 | an empty queue yields nothing; otherwise the front comes out and the rest stays in order |
| SolutionGraph.NumBoards3IsFactorial | generate_dim3_solutions.c:122-126 | the table has one entry per permutation of nine cells |
| SolutionGraph.SolvedIsBoard | generate_dim3_solutions.c:134-143 | the root board is a 3x3 board |
| SolutionGraph.MoveFacts | generate_dim3_solutions.c:174-176 | a child is a board, its moved tile now sits where the empty cell was, and the move back restores the parent |
| SolutionGraph.MoveBoard | generate_dim3_solutions.c:174-176 | a child of a board is a board |
| SolutionGraph.DiscoveryWrite | generate_dim3_solutions.c:178-198 | writing an entry for an unseen board changes only that entry |
| SolutionGraph.SeenAfterWrite | generate_dim3_solutions.c:178-198 | after the write, the seen boards are the old ones plus the child |
| SolutionGraph.ChildEntryOK | generate_dim3_solutions.c:178-198 | the child's entry names the tile whose move back reaches an already-seen board |
| SolutionGraph.GraphAfterDiscovery | generate_dim3_solutions.c:178-198 | a discovery keeps every seen board's entry correct |
| SolutionGraph.ReverseMoveSeen | generate_dim3_solutions.c:170-173 | the move the search skips, sliding back the tile just moved, leads to a board already reached, at most one move deeper than the node |
| SolutionGraph.AlreadySeen | generate_dim3_solutions.c:178-198 | a child that already has an entry is reached, at most one move deeper than the node, since nothing is deeper than the front node plus one |
| SolutionGraph.NodeClosed | generate_dim3_solutions.c:154-209 | after its four directions, every neighbour of the node has been reached, at most one move deeper |
| SolutionGraph.RootInvariants | generate_dim3_solutions.c:134-151 | the table with only the root marked, depth 0 for the root, and a queue holding the root, meet the search invariants |
| SolutionGraph.DiscoveryStep | generate_dim3_solutions.c:178-198 | a discovery queues the child one move deeper than the node; it keeps the table, graph, depth, queue-order and closure invariants, changes no earlier depth, and keeps unseen entries plus queue length the same |
| SolutionGraph.DiscoveryTable | generate_dim3_solutions.c:178-198 | a discovery keeps the table, graph and queue invariants, and one fewer entry is 0 |
| SolutionGraph.DiscoveryDepths | generate_dim3_solutions.c:178-198 | the child was not reached before, and giving it the node's depth plus one keeps the depth invariant and every earlier depth |
| SolutionGraph.DiscoveryQueue | generate_dim3_solutions.c:193-196 | queueing the child a move deeper than the front node keeps the queue ordered by depth |
| SolutionGraph.DiscoveryClosure | generate_dim3_solutions.c:178-198 | a discovery keeps the closure invariant and adds the direction just taken to those done |
| SolutionGraph.ChildNextSeen | generate_dim3_solutions.c:178-198 | the direction of a discovery leads to a reached board one move deeper than the node |
| SolutionGraph.ChildParent | generate_dim3_solutions.c:178-198 | the child's entry leads back to the node it was reached from |
| SolutionGraph.DepthsAfterDiscovery | generate_dim3_solutions.c:178-198 | giving the child the node's depth plus one keeps every board one move deeper than the board its entry leads back to |
| SolutionGraph.QueueDepthsAfterDiscovery | generate_dim3_solutions.c:193-196 | appending the child keeps the queue ordered by depth, and nothing is deeper than the front plus one |
| SolutionGraph.QueueDepthsDequeue | generate_dim3_solutions.c:156 | dequeuing the front keeps the queue ordered by depth, and the new front bounds every depth |
| SolutionGraph.DirectionStep | generate_dim3_solutions.c:168-202 | one direction of the expansion keeps the invariants |
| SolutionGraph.Record | generate_dim3_solutions.c:186-198 | the child is queued and its entry is the moved tile |
| SolutionGraph.ExpandDirection | generate_dim3_solutions.c:168-202 | the node's board is restored after the direction, and the invariants hold |
| SolutionGraph.ExpandNode | generate_dim3_solutions.c:156-205 | after all four directions every neighbour of the node is seen at most one move deeper, the invariants hold, no earlier depth changes, and unseen entries plus queue length are conserved |
| SolutionGraph.SearchStep | generate_dim3_solutions.c:154-209 | one iteration keeps the invariants and decreases the pair (unseen entries, queue length) |
| SolutionGraph.GenerateSolutions | generate_dim3_solutions.c:122-209 | the table has 9! entries; the solved board is marked as the root; every seen board's entry is a tile next to the empty cell whose move back reaches a seen board one move shallower in the search; every seen board is closed under moves, its neighbours at most one move deeper |
| SolutionGraph.StartSearch | generate_dim3_solutions.c:122-151 | a fresh table of 9! entries with only the root marked, and a queue holding the root, meet the search invariants |
| SolutionGraph.SearchDone | generate_dim3_solutions.c:154 | once the queue is empty, every reached board is closed |
| SolutionGraph.PlayStaysSeen | generate_dim3_solutions.c:154-209 | when every seen board is closed, a walk from a seen board stays among seen boards |
| SolutionGraph.EveryPlayableBoardHasEntry | generate_dim3_solutions.c:154-209 | every board reachable from the solved board has a correct entry |
| SolutionGraph.EveryBoardStepsHome | generate_dim3_solutions.c:22-27 | every reached board other than the solved one has its recorded tile next to the empty cell, and sliding it reaches a board one move shallower |
| SolutionGraph.StepsLeadHome | generate_dim3_solutions.c:22-27 | from any board with a depth, the walk the entries give has that many moves and ends at the solved board |
| SolutionGraph.EntriesLeadHome | generate_dim3_solutions.c:22-27 | following the entries from a seen board reaches the solved board in exactly as many moves as the board's depth |
| SolutionGraph.NoShorterWalk | generate_dim3_solutions.c:22-27 | no walk from a seen board to the solved board has fewer moves than its depth, so the entries give a shortest walk |
| PatternIndex.TransposeSwapsRowAndColumn | dim4_solver.c:309-350 | the reflection sends cell (r, c) to (c, r), stays on the board and undoes itself |
| PatternIndex.MatchesAreCells | dim4_solver.c:309-350 | each digit the scan produces is a cell of the board |
| PatternIndex.EncodeBound | generate_dim4_heuristics.c:369-385 | an index of n base-16 digits is below 16^n |
| PatternIndex.EncodeInjective | generate_dim4_heuristics.c:369-385 | two different digit sequences give different indices |
| PatternIndex.IndexBound | dim4_solver.c:309-350 | the solvers' index is below 16^n |
| PatternIndex.AllMatchesOnce | generate_dim4_heuristics.c:369-385 | when each label occurs once, the no-break scan finds exactly one cell per label |
| PatternIndex.ScansAgree | generate_dim4_heuristics.c:369-385 | when each label occurs at most once, the generator's no-break scan equals the solvers' first-match scan |
| PatternIndex.MatchesArePositions | dim4_solver.c:309-350 | the digits are the cells where the pattern's tiles are |
| PatternIndex.IndexDeterminesCells | dim4_solver.c:309-350 | two boards have the same index exactly when the pattern's tiles sit in the same cells |
| PatternIndex.FirstMatchTransposed | dim4_solver.c:314-330 | the reflected scan finds the transposed cell of the reflected tile |
| PatternIndex.ReflectedIndexIsTransposedBoard | dim4_solver.c:314-330 | the reflected index of a board is the plain index of the transposed board for the reflected tiles |
| PatternIndex.FindFirst | standalone_dim4_solver.c:405-446 | returns the first cell holding the tile, or 16 when there is none |
| PatternIndex.ArrIndex | standalone_dim4_solver.c:405-446 | computes the first-match index, reflected or not, and it is below 16^n |
| PatternIndex.AddAllMatches | generate_dim4_heuristics.c:369-385 | the no-break inner loop adds one digit for every matching cell |
| PatternIndex.ArrIndexAll | generate_dim4_heuristics.c:369-385 | computes the no-break index; when each label occurs at most once it is below 16^n |
| PatternDatabase.Labels | generate_dim4_heuristics.c:259-265 | the visited labels are 0 followed by the pattern's tiles |
| PatternDatabase.IndicesFit | generate_dim4_heuristics.c:259-265 | the visited index is below 16^7 and the pattern index below 16^n |
| PatternDatabase.SamePositionsSameBoard | generate_dim4_heuristics.c:315-342 | two pattern boards with the same cells for every label are equal |
| PatternDatabase.VIndexInjective | generate_dim4_heuristics.c:315-342 | the visited index tells pattern boards apart |
| PatternDatabase.MoveKeepsPatternBoard | generate_dim4_heuristics.c:305-306 | moving the empty cell keeps a board with wildcards a pattern board |
| PatternDatabase.RootIsPatternBoard | generate_dim4_heuristics.c:233-244 | the root holds each pattern tile at home, 0 in the last cell and wildcards elsewhere |
| PatternDatabase.BuildRoot | generate_dim4_heuristics.c:233-244 | the built root array equals the root board |
| PatternDatabase.Value | generate_dim4_heuristics.c:315-342 | a visited entry lies between 0 and the unvisited marker 255 |
| PatternDatabase.ValueAfterWrite | generate_dim4_heuristics.c:315-342 | writing one visited entry changes only that board's value |
| PatternDatabase.ClosureAfterWrite | generate_dim4_heuristics.c:315-342 | a lowered entry keeps the closure invariant because the board is queued |
| PatternDatabase.HeurAfterStep | generate_dim4_heuristics.c:345-350 | taking the minimum keeps every heuristic entry at or below the visited value, only lowers entries and touches only the pattern's slice |
| PatternDatabase.VisitedStep4 | generate_dim4_heuristics.c:315-342 | lowering the child's entry to the parent's cost plus the step cost and queueing the child keeps the queue and closure invariants, and the visited sum plus the queue length does not grow |
| PatternDatabase.NodeExpanded | generate_dim4_heuristics.c:291-358 | once all four directions are done, the node may leave the queue: the closure invariant holds for the rest |
| PatternDatabase.RootInvariants | generate_dim4_heuristics.c:251-284 | the root's entries of 0 and the queue holding the root meet the search invariants |
| PatternDatabase.PlayBound | generate_dim4_heuristics.c:291-358 | when the queue is empty, the visited value at the end of any walk is at most the value at its start plus the walk's pattern cost |
| PatternDatabase.BoundsAtEnd | generate_dim4_heuristics.c:291-358 | when the queue is empty, the heuristic of every board a walk reaches is at most the walk's pattern cost |
| PatternDatabase.BoundsBelow | generate_dim4_heuristics.c:345-350 | lowering entries keeps the lower-bound property |
| PatternDatabase.RootCostsNothing | generate_dim4_heuristics.c:251-254 | the solved pattern's heuristic is 0 |
| PatternDatabase.Record4 | generate_dim4_heuristics.c:325-342 | the child is queued and its visited entry set |
| PatternDatabase.LowerHeuristic | generate_dim4_heuristics.c:345-350 | after taking the minimum, every heuristic entry is at most the visited value, entries only fall, and nothing outside the pattern's slice changes |
| PatternDatabase.VisitDirection | generate_dim4_heuristics.c:308-342 | the child is recorded when its new cost is lower; the queue and closure invariants hold, visited entries only fall, and the visited sum plus the queue length does not grow |
| PatternDatabase.RelaxDirection | generate_dim4_heuristics.c:300-355 | the node's board is restored, the invariants hold, visited and heuristic entries only fall, and nothing outside the pattern's slice changes |
| PatternDatabase.ExpandPatternNode | generate_dim4_heuristics.c:298-356 | after all four directions the node is closed, the invariants hold and entries only fall |
| PatternDatabase.PatternSearchStep | generate_dim4_heuristics.c:291-358 | one iteration keeps the invariants and decreases the pair (visited sum, queue length) |
| PatternDatabase.VisitedLabels | generate_dim4_heuristics.c:259-265 | the visited pattern built in the array is 0 followed by the pattern's tiles |
| PatternDatabase.NewVisited | generate_dim4_heuristics.c:270-284 | the visited table is 255 everywhere except 0 at the root's index |
| PatternDatabase.RootWrite | generate_dim4_heuristics.c:251-254 | the root's heuristic entry becomes 0 and nothing else changes |
| PatternDatabase.StartSearch | generate_dim4_heuristics.c:233-284 | the set-up state meets the search invariants, with the root's value 0 and only the pattern's slice touched |
| PatternDatabase.BfsTilePattern | generate_dim4_heuristics.c:223-361 | afterwards the pattern's slice holds lower bounds on the pattern cost of every walk from the root; entries only fall; nothing outside the slice changes |
| PatternDatabase.PatternsOK | dim4.h:39-42 | the three patterns are well formed and fit their slices |
| PatternDatabase.GenerateHeuristics | generate_dim4_heuristics.c:167-215 | the table has `TOTAL_STATES` = 2 * 16^6 + 16^3 bytes, and every pattern's slice holds lower bounds on the pattern cost of every walk from the solved board |
| Heuristic.LookupTiles | standalone_dim4_solver.c:372-397 | the pattern's lookup is the byte at the pattern's offset plus its index |
| Heuristic.Slot | standalone_dim4_solver.c:378-387 | the looked-up cell lies inside the pattern's slice of the table |
| Heuristic.PatternSumBound | standalone_dim4_solver.c:372-397 | a sum of n pattern bytes is at most 255 * n |
| Heuristic.HeuristicIsLargerSum | standalone_dim4_solver.c:391-396 | the heuristic is at least both sums and equals one of them, so it is at most 765 |
| Heuristic.ReflectedSlotIsTransposedBoard | standalone_dim4_solver.c:384-387 | the reflected lookup reads the transposed board's entry for the reflected pattern |
| Heuristic.SumStep | standalone_dim4_solver.c:378-388 | the loop adds one pattern's entry to each sum |
| Heuristic.GetHeuristic | standalone_dim4_solver.c:372-397 | the method returns the larger of the plain and reflected sums |
| IdaSearch.TableHeuristic | dim4_solver.c:276-301 | the table heuristic is at most 765 |
| IdaSearch.SearchOutcome | standalone_dim4_solver.c:252-330 | on failure the board is unchanged, no path is taken and the returned value exceeds the bound; on success the board's estimate is 0 and the path length is the value, within the bound |
| IdaSearch.SearchWalk | standalone_dim4_solver.c:252-330 | a success path is a legal walk of the empty cell that never undoes the previous move, ending at the found board |
| IdaSearch.SearchLowerBound | standalone_dim4_solver.c:294-312 | with an admissible estimate, the value a failed search returns is at most the length of every walk to a goal |
| IdaSearch.FirstStep | standalone_dim4_solver.c:274-291 | the first move of a goal walk is a legal, non-reversing move to a board that still has a goal walk one shorter |
| IdaSearch.ValidMove | standalone_dim4_solver.c:274-282 | returns the neighbour table's entry for the cell and direction |
| IdaSearch.SearchNode.LastMove | standalone_dim4_solver.c:274 | the last tile moved, or the no-move marker at the root |
| IdaSearch.SearchNode.constructor | standalone_dim4_solver.c:190-199 | the node copies the board and starts with no moves |
| IdaSearch.SearchNode.CopyBoard | standalone_dim4_solver.c:190-199 | the copy equals the board, and the empty index is the last cell holding 0 |
| IdaSearch.SearchNode.DepthFirstSearch | standalone_dim4_solver.c:252-330 | given a heuristic within the bound and at most 80 moves in all, the result and the node's final board, empty cell and moves are those the search specification gives |
| IdaSearch.SearchNode.TryMove | standalone_dim4_solver.c:274-324 | one child is tried: pruned when over the bound, otherwise searched, and the node restored on failure; needs at most 80 moves in all |
| IdaSearch.SearchNode.Descend | standalone_dim4_solver.c:294-324 | the recursive search of the child, with the undo on failure; needs at most 80 moves in all |
| IdaSearch.SearchNode.Advance | standalone_dim4_solver.c:282-291 | the move is made on the board and the moved tile appended to the moves |
| IdaSearch.SearchNode.Retreat | standalone_dim4_solver.c:315-324 | the undo restores the board, empty cell, heuristic and move count |
| IdaSearch.EstimateReadsTable | standalone_dim4_solver.c:372-397 | the table heuristic is the estimate the search reads |
| IdaSearch.IdaStar | standalone_dim4_solver.c:203-212 | when found, the moves are a legal non-reversing walk to a goal, and with an admissible estimate none is shorter; otherwise the root is unchanged and, with an admissible estimate, no goal walk has 80 moves or fewer |
| IdaSearch.Round | standalone_dim4_solver.c:203-212 | one round at a bound up to 80 either solves within it or raises the bound to the least over-bound value, and no goal walk is shorter than that value |
| Standalone.Stripped | standalone_dim4_solver.c:134-138 | the stripped line is a prefix with only newline characters removed from its end |
| Standalone.StripNewlines | standalone_dim4_solver.c:134-138 | the length left after stripping trailing newlines, never reading before the line |
| Standalone.StripReads | standalone_dim4_solver.c:134-138 | the cells the C loop reads, starting at the last character |
| Standalone.StripReadsBeforeLine | standalone_dim4_solver.c:134-138 | on a line of newlines only, the C loop reads index -1 |
| Standalone.EmptyLineReadsBeforeLine | standalone_dim4_solver.c:134-138 | the line holding only a newline reads indices 0 and -1 |
| Standalone.LeadingTiles | standalone_dim4_solver.c:146-156 | reading stops at the first token outside 0 .. 15, or after 16 |
| Standalone.TileValues | standalone_dim4_solver.c:146-156 | the board read from the tokens has 16 cells |
| Standalone.WrittenCells | standalone_dim4_solver.c:146-156 | the cells the C loop writes start at the first index |
| Standalone.WrittenCellsRange | standalone_dim4_solver.c:146-156 | the last cell written is the number of tiles read |
| Standalone.WritesPastBoard | standalone_dim4_solver.c:148-150 | when 16 tiles are read, the C loop writes cell 16 |
| Standalone.ReadBoard | standalone_dim4_solver.c:146-156 | the count is the number of leading tiles, those cells hold the tiles, the failing token is stored next when there is room, and later cells are unchanged |
| Standalone.AllOnesRelabelsPastBoard | standalone_dim4_solver.c:536-548 | a line of sixteen "01" tokens is long enough, its tiles pass the range check, and the empty-cell scan stops at 16 |
| Standalone.NatToString | standalone_dim4_solver.c:216-237 | a number prints as a non-empty string of digits |
| Standalone.IntToString | standalone_dim4_solver.c:216-237 | a printed number has no space or newline |
| Standalone.NatRoundTrip | standalone_dim4_solver.c:216-237 | reading back the digits gives the number |
| Standalone.IntRoundTrip | standalone_dim4_solver.c:216-237 | reading back a printed integer gives the integer |
| Standalone.FirstSpace | standalone_dim4_solver.c:216-237 | finds the first space, with no space before it |
| Standalone.ReadMovesText | standalone_dim4_solver.c:216-237 | reading back the printed moves gives the moves |
| Standalone.WriteReport | standalone_dim4_solver.c:216-237 | the printed text is the report for the moves made |
| Standalone.IsSolvedBoard | standalone_dim4_solver.c:451-470 | true exactly when the board is the solved board |
| Standalone.Dim4Solver | standalone_dim4_solver.c:182-242 | on success, the printed moves are a legal non-reversing walk to the solved board, shortest when the table is admissible; otherwise the output is empty or the error line, and an empty output with an admissible table means no walk of 80 moves or fewer exists |
| Standalone.HandleLine | standalone_dim4_solver.c:140-172 | a line is attempted exactly when its 16 tiles form a board of even parity, and then the board is the tiles read; a line not attempted prints nothing and does not stop; an attempted line either prints the report of a legal non-reversing walk from its board to the solved board, or stops the loop with empty output or the error line |
| Standalone.Run | standalone_dim4_solver.c:115-175 | lines are handled in order, and reading stops early only after an attempted line |
| Parity.AdjacentSwapInversions | logic.c:35-46 | exchanging two different neighbouring values adds one inversion when they were in order and removes one otherwise |
| Parity.SwapFlipsParity | logic.c:35-46 | exchanging two cells of a sequence of distinct values flips the parity of its inversion count |
| Parity.SortedNoInversions | logic.c:52-82 | a sorted sequence has no inversions |
| Parity.SwapCounted | logic.c:35-46 | equal values change nothing and are not counted; otherwise the two cells are exchanged and the counter rises by one |
| Parity.PartitionStep | logic.c:60-72 | one partition step keeps the partition invariant |
| Parity.Partition | logic.c:58-76 | the segment is split around the pivot, a permutation of itself, with parity tracked |
| Parity.PartitionFinish | logic.c:74-76 | the pivot's final exchange puts it between the two parts |
| Parity.SortedJoin | logic.c:78-81 | two sorted parts around a pivot join into a sorted segment |
| Parity.Quicksort | logic.c:52-82 | the segment ends sorted and a permutation of itself, the rest unchanged, and the counter's parity equals the parity of the exchanges |
| Solvability.Relabelled | standalone_dim4_solver.c:546-548 | the first 0 becomes the board's length, 16, and every other cell keeps its value |
| Solvability.RowColOfCell | standalone_dim4_solver.c:554 | cell r * side + c has row r and column c |
| Solvability.RelabelledDistinct | standalone_dim4_solver.c:546-548 | the relabelled board has distinct values |
| Solvability.TaxicabStep | standalone_dim4_solver.c:554 | one move changes the empty cell's taxicab distance by one |
| Solvability.MoveRelabels | standalone_dim4_solver.c:546-548 | relabelling a moved board is exchanging two relabelled values |
| Solvability.MoveKeepsParity | standalone_dim4_solver.c:554-556 | a move keeps the sum of inversion parity and taxicab distance even or odd |
| Solvability.PlayKeepsParity | standalone_dim4_solver.c:554-556 | so does every walk |
| Solvability.SolvedParityEven | standalone_dim4_solver.c:554-556 | the solved board has even parity |
| Solvability.OddParityUnsolvable | standalone_dim4_solver.c:527-557 | no walk from an odd board reaches the solved board |
| Solvability.SwapTilesFlips | logic.c:197-228 | exchanging two tiles flips the parity |
| Solvability.ScanForEmpty | standalone_dim4_solver.c:536-542 | the first 0, or the length when there is none |
| Solvability.SortedCountParity | standalone_dim4_solver.c:551-556 | the counted swaps of sorting the relabelled board, plus the empty cell's taxicab distance, are even exactly when the board's parity is even |
| Solvability.IsSolvable | standalone_dim4_solver.c:527-557 | true only when the board has an empty cell, and for a permutation exactly when its parity is even |
| Solvability.FindEmpty | standalone_dim4_solver.c:536-542 | returns the first 0 or 16 |
| Solvability.ScanForEmptyFirst | standalone_dim4_solver.c:536-542 | the scan's result holds 0 and nothing before it does |
| Solvability.RelabelledCopy | standalone_dim4_solver.c:546-548 | the copied array is the relabelled board |
| CornerSolver.LabelRoundTrip | dim4_solver.c:98-116 | mapping a block label to the board's tile and back gives the label |
| CornerSolver.TileRoundTrip | dim4_solver.c:136-142 | mapping a board tile to the block label and back gives the tile |
| CornerSolver.HomeLabel | dim4_solver.c:98-116 | a tile at its home cell gets the label of that block cell |
| CornerSolver.Corner | dim4_solver.c:98-116 | the block read from the board has 16 cells |
| CornerSolver.CornerEmpty | dim4_solver.c:98-116 | the block holds 0 exactly at the empty cell's place in it |
| CornerSolver.CornerAt | dim4_solver.c:98-116 | each block cell is the relabelled board cell |
| CornerSolver.CornerMove | dim4_solver.c:122-142 | a move inside the block is the 4x4 move of the block |
| CornerSolver.CornerMoveKeeps | dim4_solver.c:136-142 | a move inside the block keeps every cell outside it |
| CornerSolver.NeighbourCell | dim4_solver.c:136-142 | the block neighbour is the board neighbour |
| CornerSolver.TileSourceUnique | logic.c:297-332 | looking for the tile held by a neighbour of the empty cell finds that neighbour |
| CornerSolver.TileFound | logic.c:295-332 | the tile to slide is found next to the empty cell |
| CornerSolver.MappedMove | dim4_solver.c:136-142 | sliding the mapped tile is the block move |
| CornerSolver.LabelInjective | dim4_solver.c:98-116 | different tiles get different labels |
| CornerSolver.CornerSolved | dim4_solver.c:117-131 | the block is solved exactly when every block cell holds its home tile |
| CornerSolver.ReadCorner | dim4_solver.c:98-116 | the read block is the relabelled corner and the empty index is the empty cell's place in it |
| CornerSolver.ReadCornerRow | dim4_solver.c:100-115 | one row of the block is read, and the empty index is found when it lies in the rows read |
| CornerSolver.ReadCell | dim4_solver.c:100-115 | one cell of the block is read and relabelled |
| CornerSolver.SolveCorner | dim4_solver.c:87-146 | on success the block is solved by a goal walk, the move count grows by its length, and it is shortest when the table is admissible; on failure nothing changes and, with an admissible table, the block has no goal walk of 80 moves or fewer; cells outside the block never change |
| CornerSolver.SearchCorner | dim4_solver.c:117-131 | the search on the block gives a walk to a goal; when it fails and the table is admissible, the block has no goal walk of 80 moves or fewer |
| CornerSolver.MapBack | dim4_solver.c:136-142 | replaying the walk's tiles on the board solves the block |
| CornerSolver.MoveMapped | dim4_solver.c:136-142 | one replayed tile slides the board as the walk slid the block |
| Game.MoveGrid | logic.c:236-281 | a slide keeps a grid a grid |
| Game.Flatten | logic.c:388-426 | the row-major sequence of a grid has n * n cells |
| Game.FlattenMove | logic.c:236-281 | sliding on the grid is moving on the flattened board |
| Game.StepIsNeighbour | logic.c:236-281 | each key moves the empty cell to the matching neighbour, or nowhere off the board |
| Game.StepReverse | logic.c:236-281 | a key that moves the empty cell, followed by the opposite key, returns it |
| Game.TileSource | logic.c:297-332 | the neighbour of the empty cell holding the tile, or the empty cell itself when there is none; always on the board |
| Game.TileSourceIsSlide | logic.c:295-351 | a neighbour holds the tile exactly when some key slides it, and then the key towards it moves the empty cell there |
| Game.CellsDistinct | logic.c:295-332 | in a permutation grid, equal tiles mean the same cell |
| Game.SlideKeepsParity | logic.c:234-290 | a slide keeps the parity of the board |
| Game.SolvedGridIsSolvedBoard | logic.c:356-380 | the solved grid flattens to the solved board |
| Game.FlattenUnflatten | logic.c:170-187 | flattening the placed grid gives the array back |
| Game.UnflattenFlatten | logic.c:170-187 | placing a flattened grid gives the grid back |
| Game.Shuffled | logic.c:94-116 | the shuffle has one entry per draw |
| Game.ShuffledLabels | logic.c:94-116 | for any draws the shuffle is a permutation of 1 .. m |
| Game.StandardArray | logic.c:119-133 | the standard array has n * n entries |
| Game.StandardLabels | logic.c:119-133 | the standard array is a permutation of 1 .. n * n |
| Game.TrivialArray | logic.c:146-155 | the trivial array has m entries |
| Game.AlmostArray | logic.c:158-168 | the almost array has m entries |
| Game.AlmostLabels | logic.c:158-168 | the almost array is a permutation of 1 .. m |
| Game.InitialArrayLabels | logic.c:94-168 | every set-up fills a permutation of 1 .. n * n |
| Game.PlacedPermutation | logic.c:170-187 | placing the array, with n * n turned into 0, gives a permutation of 0 .. n * n - 1, and relabelling the empty cell gives the array back |
| Game.PlacedGridPermutation | logic.c:170-187 | the placed grid flattens to that permutation |
| Game.FlattenSwap | logic.c:197-228 | exchanging two grid cells exchanges the flattened cells |
| Game.ParityFix | logic.c:216-228 | the repair keeps a grid a grid |
| Game.ParityFixFlips | logic.c:216-228 | the repair exchanges two tiles, never the empty cell, and flips the parity |
| Game.InitialBoard | logic.c:89-229 | the board `init` produces is a grid |
| Game.InitialBoardEvenParity | logic.c:89-229 | every set-up ends in a permutation of even parity |
| Game.SolvedSetup | logic.c:137-143 | the solved set-up gives the solved grid |
| Game.TrivialPlaced | logic.c:146-155 | the trivial board is the solved board with the empty cell moved one left, and moving it back solves it |
| Game.TrivialSetup | logic.c:146-155 | its empty cell is one left of the corner, and the 'l' slide solves it |
| Game.SortCountParity | logic.c:197-214 | the counted swaps of sorting the board have the parity of its inversions |
| Game.ShuffleArray | logic.c:94-116 | the array holds the shuffle of the draws |
| Game.CountingArray | logic.c:137-143 | the array counts 1 .. m |
| Game.StandardValues | logic.c:119-133 | the array holds the standard set-up |
| Game.Puzzle.Tiles | logic.c:170-187 | the board's contents as a grid |
| Game.Puzzle.constructor | logic.c:89-92 | a new puzzle has side n, a valid board and no moves |
| Game.Puzzle.FillArray | logic.c:94-168 | the array holds the chosen set-up's values |
| Game.Puzzle.PlaceTiles | logic.c:170-187 | the board holds the placed grid, and the empty cell is where n * n was |
| Game.Puzzle.PlaceRow | logic.c:172-186 | after the row, every row so far holds the placed grid, and the empty cell is found once n * n has been passed |
| Game.Puzzle.Exchange | logic.c:216-228 | two board cells are exchanged |
| Game.Puzzle.FixParity | logic.c:197-228 | an odd board is repaired by the parity fix; an even one is left alone |
| Game.Puzzle.Init | logic.c:89-229 | the board is the set-up's initial board, a permutation of even parity, with no moves made |
| Game.Puzzle.CountExchanges | logic.c:197-214 | the counted swaps plus the taxicab distance are even exactly when the board's parity is even |
| Game.Puzzle.MoveFrom | logic.c:236-289 | the empty cell takes the given cell, the board is the moved grid and the move is counted |
| Game.Puzzle.Slide | logic.c:234-290 | the empty cell moves to the key's neighbour, the board is the slid grid, and the move is counted exactly when the empty cell moved |
| Game.Puzzle.SlideTile | logic.c:295-351 | the empty cell moves to the tile's cell when the tile is next to it, the board is the slid grid, and the move is counted exactly when it moved |
| Game.Puzzle.FindTile | logic.c:297-332 | returns the neighbour of the empty cell holding the tile, or (-1, -1) when no neighbour holds it |
| Game.Puzzle.IsSolved | logic.c:356-380 | true exactly when the board is the solved grid |
| Game.Puzzle.BoardRank | logic.c:388-426 | returns the rank of the 3x3 board, below 9! |
| GeneralMoves.Push | general_solver.c:57-75 | one slide keeps placed tiles and parity, moves the empty cell to the key's neighbour, and follows a tracked tile |
| GeneralMoves.PushPair | general_solver.c:346-378 | one slide followed for two tracked tiles |
| GeneralMoves.MoveKeeps | general_solver.c:57-75 | a move between open cells keeps every guarded tile |
| GeneralMoves.MoveEmptyToTarget | general_solver.c:57-75 | the empty cell ends next to the target or diagonal to it, the target tile stays, placed tiles stay and parity is kept |
| GeneralMoves.MoveAlongRow | general_solver.c:59-66 | the row walk clamps the empty cell's column to within one of the target's |
| GeneralMoves.MoveAlongColumn | general_solver.c:67-74 | the column walk clamps the empty cell's row to within one of the target's |
| GeneralMoves.MoveEmptyToBelowTarget | general_solver.c:83-193 | the empty cell ends below the target, or above it on the bottom row, with the target tile unmoved, placed tiles kept and parity kept |
| GeneralMoves.BelowFromUnder | general_solver.c:92-102 | from the row below, the empty cell walks under the target |
| GeneralMoves.BelowFromSide | general_solver.c:105-139 | from beside the target, the empty cell goes around it |
| GeneralMoves.SideOver | general_solver.c:110-116 | on the bottom row, from the side, the empty cell goes over the target |
| GeneralMoves.SideUnder | general_solver.c:117-121 | above the bottom row, from the side, the empty cell drops under the target |
| GeneralMoves.BelowFromOverBottom | general_solver.c:142-157 | from above a bottom-row target the empty cell stays above it |
| GeneralMoves.BelowFromOver | general_solver.c:158-191 | from the row above, the empty cell goes around the target |
| GeneralMoves.AroundLeft | general_solver.c:160-165 | from the upper left, the empty cell goes down the left side |
| GeneralMoves.AroundTop | general_solver.c:166-184 | from directly above, the empty cell goes around either side |
| GeneralMoves.DownLeftSide | general_solver.c:169-175 | on the last column, the empty cell goes down the left side |
| GeneralMoves.DownRightSide | general_solver.c:177-183 | elsewhere, the empty cell goes down the right side |
| GeneralMoves.AroundRight | general_solver.c:185-190 | from the upper right, the empty cell goes down the right side |
| GeneralMoves.MoveEmptyToRightOfTarget | general_solver.c:201-308 | the empty cell ends right of the target, or left of it on the last column, with the target tile unmoved, placed tiles kept and parity kept |
| GeneralMoves.RightFromRight | general_solver.c:207-218 | from the column to the right, the empty cell walks beside the target |
| GeneralMoves.RightFromColumn | general_solver.c:220-255 | from above or below, the empty cell goes around the target |
| GeneralMoves.ColumnEdge | general_solver.c:225-231 | on the last column, the empty cell goes around to the left |
| GeneralMoves.ColumnInside | general_solver.c:232-236 | elsewhere, the empty cell steps right |
| GeneralMoves.RightFromLeftEdge | general_solver.c:260-272 | left of a last-column target, the empty cell stays left |
| GeneralMoves.RightFromLeft | general_solver.c:273-306 | from the column to the left, the empty cell goes around the target |
| GeneralMoves.LeftAbove | general_solver.c:275-280 | from the upper left, the empty cell goes over the target |
| GeneralMoves.LeftBesideOver | general_solver.c:284-291 | beside a bottom-row target, the empty cell goes over it |
| GeneralMoves.LeftBesideUnder | general_solver.c:292-298 | beside any other target, the empty cell goes under it |
| GeneralMoves.LeftBelow | general_solver.c:300-305 | from the lower left, the empty cell goes under the target |
| GeneralMoves.LocateTile | general_solver.c:316-331 | returns the first cell, in row-major order, holding the tile |
| GeneralMoves.CycleDown | general_solver.c:346-358 | one cycle moves the target one row down, leaving the empty cell above it |
| GeneralMoves.ReturnDown | general_solver.c:346-358 | the empty cell returns to the right of the lowered target |
| GeneralMoves.CycleUp | general_solver.c:366-378 | one cycle moves the target one row up, leaving the empty cell below it |
| GeneralMoves.ReturnUp | general_solver.c:366-378 | the empty cell returns to the right of the raised target |
| GeneralMoves.MoveTargetToRow | general_solver.c:313-381 | the target tile reaches the destination row in its column, placed tiles and parity kept; nothing moves when it is already there |
| GeneralMoves.CarryToRow | general_solver.c:333-381 | the target tile is carried to the destination row |
| GeneralMoves.ShiftDown | general_solver.c:343-361 | the target moves down the given number of rows |
| GeneralMoves.ShiftUp | general_solver.c:362-380 | the target moves up the given number of rows |
| GeneralMoves.CycleRight | general_solver.c:419-432 | one cycle moves the target one column right |
| GeneralMoves.ReturnRight | general_solver.c:419-432 | the empty cell returns below the moved target |
| GeneralMoves.CycleLeft | general_solver.c:439-452 | one cycle moves the target one column left |
| GeneralMoves.ReturnLeft | general_solver.c:439-452 | the empty cell returns below the moved target |
| GeneralMoves.MoveTargetToCol | general_solver.c:386-454 | the target tile reaches the destination column in its row, placed tiles and parity kept; nothing moves when it is already there |
| GeneralMoves.CarryToCol | general_solver.c:406-454 | the target tile is carried to the destination column |
| GeneralMoves.ShiftRight | general_solver.c:416-434 | the target moves right the given number of columns |
| GeneralMoves.ShiftLeft | general_solver.c:435-453 | the target moves left the given number of columns |
| GeneralSolver.SlideAlongRow | general_solver.c:487-490 | the repeated slide walks the empty cell along the row to the stop column |
| GeneralSolver.SlideAlongColumn | general_solver.c:491-494 | the repeated slide walks the empty cell along the column to the stop row |
| GeneralSolver.SlidRowKeeps | general_solver.c:487-490 | a walk along a row keeps every cell outside that row's span |
| GeneralSolver.SlidColumnOff | general_solver.c:491-494 | a walk along a column keeps every cell off the column |
| GeneralSolver.ArrangedExtend | general_solver.c:464-480 | placing the next tile at home extends the arranged part of the row |
| GeneralSolver.RowComplete | general_solver.c:528-547 | after the last manoeuvre, the whole row is arranged |
| GeneralSolver.ShiftRowTiles | general_solver.c:518-525 | shifting the placed tiles left puts each one cell left of home |
| GeneralSolver.UnshiftRow | general_solver.c:533-547 | the final walk moves the shifted tiles back home |
| GeneralSolver.AwkwardShifted | general_solver.c:503-516 | the awkward manoeuvre leaves the row shifted with the last tile below |
| GeneralSolver.FindOpen | general_solver.c:461-549 | a permutation holds the tile somewhere outside the arranged part |
| GeneralSolver.EmptyOpen | general_solver.c:461-549 | the empty cell lies outside the arranged part |
| GeneralSolver.ArrangedKept | general_solver.c:461-549 | keeping guarded cells keeps the arranged part |
| GeneralSolver.ColPlanForRow | general_solver.c:469-471 | the column plan for a row tile stays inside open cells |
| GeneralSolver.RowPlanForRow | general_solver.c:472-479 | the row plan for a row tile stays inside open cells |
| GeneralSolver.ColPlanLastRow | general_solver.c:528 | the column plan for the row's last tile stays inside open cells |
| GeneralSolver.RowPlanLastRow | general_solver.c:529 | the row plan for the row's last tile stays inside open cells |
| GeneralSolver.ColPlanLastStep | general_solver.c:530 | the final column step for the last tile stays inside open cells |
| GeneralSolver.PlaceRowTile | general_solver.c:464-480 | the tile reaches its home in the row; tiles placed before it stay; parity is kept |
| GeneralSolver.RowTileToColumn | general_solver.c:469-471 | the tile reaches its home column |
| GeneralSolver.RowTileToRow | general_solver.c:472-479 | the tile reaches its home row |
| GeneralSolver.EmptyToRowEnd | general_solver.c:487-494 | the empty cell reaches the row's last cell, keeping the placed tiles |
| GeneralSolver.EmptyToLastColumn | general_solver.c:487-490 | the empty cell reaches the last column |
| GeneralSolver.EmptyUpLastColumn | general_solver.c:491-494 | the empty cell goes up the last column to the row |
| GeneralSolver.AwkwardRow | general_solver.c:503-516 | when the last tile sits just below its home, the manoeuvre shifts the row with the tile below it |
| GeneralSolver.AwkwardTurn | general_solver.c:509-515 | the turning slides of the awkward case |
| GeneralSolver.AwkwardDown | general_solver.c:509-511 | the first three slides of the turn |
| GeneralSolver.AwkwardUp | general_solver.c:513-515 | the next three slides of the turn |
| GeneralSolver.ShiftRow | general_solver.c:518-525 | the placed tiles shift one cell left, each one left of home |
| GeneralSolver.LastTileToColumn | general_solver.c:528 | the last tile reaches the last column |
| GeneralSolver.LastTileUp | general_solver.c:529 | the last tile rises to the row below home |
| GeneralSolver.LastTileAcross | general_solver.c:530 | the last tile is placed below its home cell |
| GeneralSolver.RestoreLastRow | general_solver.c:533-547 | the row returns to place with the last tile at home |
| GeneralSolver.ReturnToRowStart | general_solver.c:533-540 | the empty cell walks back to the row's start |
| GeneralSolver.ReturnAlongRowBelow | general_solver.c:533-536 | the empty cell walks along the row below |
| GeneralSolver.ReturnUpToRow | general_solver.c:537-540 | the empty cell climbs to the row |
| GeneralSolver.LastRowTile | general_solver.c:484-548 | the last tile of the row is placed and the row is complete |
| GeneralSolver.ArrangeRow | general_solver.c:461-549 | the row is arranged, every earlier row and column stays arranged, and parity is kept |
| GeneralSolver.ColumnExtend | general_solver.c:560-569 | placing the next tile at home extends the arranged part of the column |
| GeneralSolver.ColumnComplete | general_solver.c:606-622 | after the last manoeuvre, the whole column is arranged |
| GeneralSolver.ShiftColumnTiles | general_solver.c:597-604 | shifting the placed tiles up puts each one cell above home |
| GeneralSolver.UnshiftColumn | general_solver.c:610-622 | the final walk moves the shifted tiles back home |
| GeneralSolver.AwkwardColumnShifted | general_solver.c:583-596 | the awkward manoeuvre leaves the column shifted with the last tile beside it |
| GeneralSolver.RowPlanForColumn | general_solver.c:563 | the row plan for a column tile stays inside open cells |
| GeneralSolver.ColPlanForColumn | general_solver.c:564-568 | the column plan for a column tile stays inside open cells |
| GeneralSolver.RowPlanLastColumn | general_solver.c:606 | the row plan for the column's last tile stays inside open cells |
| GeneralSolver.ColPlanLastColumn | general_solver.c:607 | the column plan for the column's last tile stays inside open cells |
| GeneralSolver.RowPlanLastColumnStep | general_solver.c:608 | the final row step for the last tile stays inside open cells |
| GeneralSolver.PlaceColumnTile | general_solver.c:560-569 | the tile reaches its home in the column; tiles placed before it stay; parity is kept |
| GeneralSolver.ColumnTileToRow | general_solver.c:563 | the tile reaches its home row |
| GeneralSolver.ColumnTileToColumn | general_solver.c:564-568 | the tile reaches its home column |
| GeneralSolver.EmptyToColumnEnd | general_solver.c:574-581 | the empty cell reaches the column's last cell |
| GeneralSolver.AwkwardColumn | general_solver.c:583-596 | when the last tile sits just right of its home, the manoeuvre shifts the column with the tile beside it |
| GeneralSolver.AwkwardColumnTurn | general_solver.c:589-595 | the turning slides of the awkward case |
| GeneralSolver.AwkwardColumnLeft | general_solver.c:589-591 | the first three slides of the turn |
| GeneralSolver.AwkwardColumnRight | general_solver.c:592-594 | the next three slides of the turn |
| GeneralSolver.ShiftColumn | general_solver.c:597-604 | the placed tiles shift one cell up, each one above home |
| GeneralSolver.ShiftColumnRun | general_solver.c:599-602 | the run of slides that shifts the column |
| GeneralSolver.ColumnRunUp | general_solver.c:599-602 | each slide of the run keeps the shifted tiles in order |
| GeneralSolver.LastTileToRow | general_solver.c:606 | the last tile reaches the last row |
| GeneralSolver.LastTileLeft | general_solver.c:607 | the last tile reaches the column right of home |
| GeneralSolver.LastTileDown | general_solver.c:608 | the last tile is placed beside its home cell |
| GeneralSolver.RestoreLastColumn | general_solver.c:610-622 | the column returns to place with the last tile at home |
| GeneralSolver.ReturnToColumnStart | general_solver.c:610-617 | the empty cell walks back to the column's start |
| GeneralSolver.ReturnUpColumn | general_solver.c:610-613 | the empty cell walks up the column to its right |
| GeneralSolver.ReturnAlongRow | general_solver.c:614-617 | the empty cell steps back into the column |
| GeneralSolver.ShiftLastColumn | general_solver.c:574-604 | the empty cell reaches the column's end and the placed tiles shift up |
| GeneralSolver.LastColumnTile | general_solver.c:572-623 | the last tile of the column is placed and the column is complete |
| GeneralSolver.ArrangeColumn | general_solver.c:556-624 | the column is arranged, the row above stays arranged, and parity is kept |
| GeneralSolver.ArrangeOuter | logic.c:525-576 | rows and columns are arranged from the outside in until a 2x2 block is left in the corner |

## Left out

- The ncurses interface, `fifteen.c` and `fifteen.h`: drawing, key reading and animation are input and output. The animation inside `slide` and `slide_tile` is left out for the same reason.
- Loading and saving tables (`load_dim3_solutions`, `load_dim4_heuristics`, `fopen`, `fwrite`) and allocation failures. The tables are parameters of the solvers.
- `drand48` in `init`: the random set-up takes its draws as a parameter, each between 0 and the step number.
- `getline` and `strtol` in the standalone program: a line is a list of tokens, each either a number or not a number.
- `god_mode` is only partly modelled. The 2x2 lookup, the loop that follows the 3x3 table, and the two-row step `arrange_row(dim - 2)` followed by a final 'l' slide (logic.c:564-573) are not modelled: `GeneralSolver.ArrangeRow` is proved only for at least three rows below the offset, and that step leaves two. The 4x4 branch inside the loop (logic.c:528-560) is not part of `ArrangeOuter`; `CornerSolver.SolveCorner` models the solver it calls.
- The global `solved` flag of the dim-4 solver is a returned boolean.
- `moves[-1]`, read at the root of the depth-first search, is a no-move marker that differs from every tile.
- The structure field `reflected_tiles` that the solvers read is missing from `dim4.h`, so the reflected tiles are a parameter.
- The 16^7 visited table of the pattern search is described symbolically. Its size matters only as a bound on the index.
- IdaSearch.IdaStar: gives up once the bound exceeds 80. The C raises the bound without limit, and a round with a bound over 80 could write past the 80-entry moves buffer; no 4x4 position needs more than 80 moves.
- IdaSearch.SearchNode.DepthFirstSearch: requires the moves made plus the bound to be at most 80, which every round with a bound up to 80 meets; the C does not check it.
- SolutionGraph.GenerateSolutions: the depth of each board is a ghost map beside the table; the C keeps no depths.
- Solvability.IsSolvable: even parity is proved necessary for a board to be solvable (`Solvability.OddParityUnsolvable`), not sufficient.
- Game.InitialBoardEvenParity: states even parity, the necessary condition; that every such board can be solved is not proved.
- Game.Puzzle.Init: the board it sets up is proved to have even parity, not to be solvable.
- IdaSearch.IdaStar: the shortest-walk guarantee holds only when the table is admissible. The generated table is not proved admissible for the 4x4 puzzle, only a lower bound on each pattern's own moves.
- GeneralSolver.ArrangeRow: requires at least three rows left below the offset (offset + 3 <= dim), the case the outer loop uses.
- GeneralSolver.ArrangeColumn: requires at least three columns left right of the offset (offset + 3 <= dim).
- GeneralMoves.MoveEmptyToTarget: the move counter is stated only as not decreasing; the same holds for every GeneralMoves and GeneralSolver method.
- Standalone.Run: states only the number of lines handled and when reading stops, not each line's output.
- CornerSolver.ReadCorner: reads the block into a scratch array rather than the node's own board.
- `Game.Puzzle.BoardRank` models `permuation_rank` of logic.c for 3x3 boards only, the only side it is called for.

## Findings

| source | as written | input that shows it | evidently intended | confidence | as-written member | corrected member |
|---|---|---|---|---|---|---|
| standalone_dim4_solver.c:148-150 | the read loop stores the converted token at `board[i]` before testing that `i < 16` | a line of 16 valid tiles followed by anything: the 17th pass writes `board[16]` | stop after 16 tiles without writing past the board | not executed | Standalone.WritesPastBoard | Standalone.ReadBoard |
| standalone_dim4_solver.c:134-138 | the newline-stripping loop reads `line[n - 1]` with no test that `n > 0` | the line "\n": after one strip the loop reads index -1 | stop at the start of the line | not executed | Standalone.EmptyLineReadsBeforeLine | Standalone.StripNewlines |
| standalone_dim4_solver.c:536-548 | `is_solvable` scans for 0 and writes `array[i] = 16` at whatever index the scan stopped | the line of sixteen "01" tokens (48 characters) passes the length and range checks; the scan ends at 16 and `array[16] = 16` writes past the array; with every value equal the quicksort counts no swaps and the taxicab distance is 2, so the board is reported solvable and the solver runs on a board with no empty cell | reject a board with no empty cell | not executed | Standalone.AllOnesRelabelsPastBoard | Solvability.IsSolvable |
