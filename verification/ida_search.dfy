/** The iterative-deepening A* search of the 4x4 solvers
    (`depth_first_search` and the outer loop of `dim4_solver`): one search
    node is moved through the board graph in place and rolled back after
    every unsuccessful neighbour; branches whose estimate exceeds the bound
    are cut off, and the least cut-off estimate is the bound of the next
    round. The heuristic table is a parameter. */
module IdaSearch {
  import opened Common
  import opened Geometry
  import opened PatternIndex
  import opened Heuristic

  // ---------------------------------------------------------------------
  // The search as a function of the board.

  /** The "previous move" of the root node, which has made no move yet.
      Tiles are never negative, so no tile equals it. */
  const NoMove := -1

  /** The heuristic table and the reflected tile orderings it is read with. */
  datatype Tables = Tables(table: seq<Byte>, reflectedTiles: seq<seq<int>>)

  predicate TablesOK(t: Tables)
  {
    |t.table| == TotalStates && ReflectedTilesOK(t.reflectedTiles)
  }

  /** The heuristic of a board as read from the tables by `get_heurisitic`. */
  function TableHeuristic(t: Tables, b: seq<int>): (h: nat)
    requires TablesOK(t) && |b| == 16
    ensures h <= 3 * 255
  {
    HeuristicIsLargerSum(t.table, b, t.reflectedTiles);
    HeuristicOf(t.table, b, t.reflectedTiles)
  }

  /** The same as the estimate the search works with. */
  function Estimate(t: Tables): (est: seq<int> -> nat)
    requires TablesOK(t)
  {
    (b: seq<int>) => if |b| == 16 then TableHeuristic(t, b) else 0
  }

  /** `est` is the heuristic the tables give every board. */
  ghost predicate ReadsTable(est: seq<int> -> nat, table: seq<Byte>, reflectedTiles: seq<seq<int>>)
  {
    |table| == TotalStates && ReflectedTilesOK(reflectedTiles) &&
    forall b: seq<int> {:trigger HeuristicOf(table, b, reflectedTiles)} ::
      |b| == 16 ==> est(b) == HeuristicOf(table, b, reflectedTiles)
  }

  /** A neighbour that is not -1 is a cell of the board. */
  lemma NeighbourRange(e: int, d: int)
    requires 0 <= e < 16 && 0 <= d < 4 && Neighbour(4, e, d) != -1
    ensures 0 <= Neighbour(4, e, d) < 16
  {
    NeighbourSymmetric(4, e, d);
  }

  /** What a search reports: whether it reached a board of heuristic 0, the
      value it returns, the board and empty cell it leaves the node on, and
      the tiles it appended to the node's moves. */
  datatype Found = Found(solved: bool, value: int, board: seq<int>, empty: int, path: seq<int>)

  /** `depth_first_search` from board `b` with empty cell `e`, the node's
      last move `prev` and the given bound: a board of heuristic 0 is solved
      at once; otherwise the neighbours are tried in the order of the
      `valid_moves` row. */
  function Search(est: seq<int> -> nat, b: seq<int>, e: int, prev: int, bound: int): (r: Found)
    requires |b| == 16 && 0 <= e < 16 && 0 <= bound
    decreases bound, 2, 0
  {
    if est(b) == 0 then Found(true, 0, b, e, [])
    else Neighbours(est, b, e, prev, bound, 0, IntMax)
  }

  /** The neighbour loop from direction `d` on, with `newBound` the least
      value returned so far. The move that slides back the tile of the last
      move is skipped; a solved attempt ends the loop at once; the value of
      the loop is the least value of its attempts. */
  function Neighbours(est: seq<int> -> nat, b: seq<int>, e: int, prev: int, bound: int, d: int, newBound: int): (r: Found)
    requires |b| == 16 && 0 <= e < 16 && 0 <= bound && 0 <= d <= 4
    decreases bound, 1, 4 - d
  {
    if d == 4 then Found(false, newBound, b, e, [])
    else
      var m := Neighbour(4, e, d);
      if m == -1 || b[m] == prev then Neighbours(est, b, e, prev, bound, d + 1, newBound)
      else
        NeighbourRange(e, d);
        var a := Attempt(est, b, e, m, bound);
        if a.solved then a
        else Neighbours(est, b, e, prev, bound, d + 1, Min(a.value, newBound))
  }

  /** One neighbour: the tile at `m` slides into the empty cell. When the
      estimate `1 + h` of the new board exceeds the bound the attempt fails
      with that estimate; otherwise the new board is searched with the bound
      less one and the attempt returns one more than that search. A solved
      search keeps its board and appends the tile to its path; a failed one
      is undone. */
  function Attempt(est: seq<int> -> nat, b: seq<int>, e: int, m: int, bound: int): (r: Found)
    requires |b| == 16 && 0 <= e < 16 && 0 <= m < 16 && 0 <= bound
    decreases bound, 0, 0
  {
    var c := MakeMove(b, e, m);
    if 1 + est(c) > bound then Found(false, 1 + est(c), b, e, [])
    else
      var sub := Search(est, c, m, b[m], bound - 1);
      if sub.solved then Found(true, 1 + sub.value, sub.board, sub.empty, [b[m]] + sub.path)
      else Found(false, 1 + sub.value, b, e, [])
  }

  // ---------------------------------------------------------------------
  // Walks through the board graph.

  /** Every direction of `dirs` is a move on the board from cell `e` on. */
  predicate Legal(e: int, dirs: seq<int>)
    requires 0 <= e < 16
    decreases |dirs|
  {
    dirs == [] ||
    (0 <= dirs[0] < 4 && Neighbour(4, e, dirs[0]) != -1 &&
     (NeighbourRange(e, dirs[0]); Legal(Neighbour(4, e, dirs[0]), dirs[1..])))
  }

  /** Where a walk ends and which tiles it slides. */
  datatype Slid = Slid(board: seq<int>, empty: int, tiles: seq<int>)

  /** Slides the tiles next to the empty cell in the directions `dirs`. */
  function Slide(b: seq<int>, e: int, dirs: seq<int>): (s: Slid)
    requires |b| == 16 && 0 <= e < 16 && Legal(e, dirs)
    ensures |s.board| == 16 && 0 <= s.empty < 16 && |s.tiles| == |dirs|
    decreases |dirs|
  {
    if dirs == [] then Slid(b, e, [])
    else
      NeighbourRange(e, dirs[0]);
      var m := Neighbour(4, e, dirs[0]);
      var s := Slide(MakeMove(b, e, m), m, dirs[1..]);
      Slid(s.board, s.empty, [b[m]] + s.tiles)
  }

  /** No tile is slid straight after the same tile: the first differs from
      `prev`, and each later one from the one before it. */
  predicate NonReversing(prev: int, tiles: seq<int>)
    decreases |tiles|
  {
    tiles == [] || (tiles[0] != prev && NonReversing(tiles[0], tiles[1..]))
  }

  /** The table never overestimates: from any board, every walk to a board
      of heuristic 0 is at least as long as the heuristic. */
  ghost predicate Admissible(est: seq<int> -> nat)
  {
    forall c: seq<int>, e: int, dirs: seq<int> {:trigger Slide(c, e, dirs)} ::
      |c| == 16 && 0 <= e < 16 && Legal(e, dirs) && est(Slide(c, e, dirs).board) == 0 ==>
        est(c) <= |dirs|
  }

  /** A non-reversing walk from (b, e) after `prev` to a board of heuristic
      0: a goal walk of the search. */
  ghost predicate GoalWalk(est: seq<int> -> nat, b: seq<int>, e: int, prev: int, dirs: seq<int>)
    requires |b| == 16 && 0 <= e < 16
  {
    Legal(e, dirs) && NonReversing(prev, Slide(b, e, dirs).tiles) && est(Slide(b, e, dirs).board) == 0
  }

  // ---------------------------------------------------------------------
  // What the search returns.

  /** A search that fails leaves the node as it found it and returns more
      than its bound; one that succeeds ends on a board of heuristic 0 and
      returns the number of moves it made, which is within the bound. */
  lemma {:induction false} SearchOutcome(est: seq<int> -> nat, b: seq<int>, e: int, prev: int, bound: int)
    requires |b| == 16 && 0 <= e < 16 && 0 <= bound < IntMax
    ensures var r := Search(est, b, e, prev, bound);
      (!r.solved ==> r.board == b && r.empty == e && r.path == [] && bound < r.value <= IntMax) &&
      (r.solved ==> |r.board| == 16 && est(r.board) == 0 && |r.path| == r.value <= bound)
    decreases bound, 2, 0
  {
    if est(b) != 0 {
      NeighboursOutcome(est, b, e, prev, bound, 0, IntMax);
    }
  }

  lemma {:induction false} NeighboursOutcome(est: seq<int> -> nat, b: seq<int>, e: int, prev: int, bound: int, d: int, newBound: int)
    requires |b| == 16 && 0 <= e < 16 && 0 <= bound < newBound <= IntMax && 0 <= d <= 4
    ensures var r := Neighbours(est, b, e, prev, bound, d, newBound);
      (!r.solved ==> r.board == b && r.empty == e && r.path == [] && bound < r.value <= newBound) &&
      (r.solved ==> |r.board| == 16 && est(r.board) == 0 && |r.path| == r.value <= bound)
    decreases bound, 1, 4 - d
  {
    if d < 4 {
      var m := Neighbour(4, e, d);
      if m == -1 || b[m] == prev {
        NeighboursOutcome(est, b, e, prev, bound, d + 1, newBound);
      } else {
        NeighbourRange(e, d);
        AttemptOutcome(est, b, e, m, bound);
        var a := Attempt(est, b, e, m, bound);
        if !a.solved {
          NeighboursOutcome(est, b, e, prev, bound, d + 1, Min(a.value, newBound));
        }
      }
    }
  }

  lemma {:induction false} AttemptOutcome(est: seq<int> -> nat, b: seq<int>, e: int, m: int, bound: int)
    requires |b| == 16 && 0 <= e < 16 && 0 <= m < 16 && 0 <= bound < IntMax
    ensures var r := Attempt(est, b, e, m, bound);
      (!r.solved ==> r.board == b && r.empty == e && r.path == [] && bound < r.value) &&
      (r.solved ==> |r.board| == 16 && est(r.board) == 0 && |r.path| == r.value <= bound)
    decreases bound, 0, 0
  {
    var c := MakeMove(b, e, m);
    if 1 + est(c) <= bound {
      SearchOutcome(est, c, m, b[m], bound - 1);
    }
  }

  /** A successful search has found a goal walk: the tiles it appended are
      the tiles of a non-reversing walk from the board to the board it ends
      on. */
  lemma {:induction false} SearchWalk(est: seq<int> -> nat, b: seq<int>, e: int, prev: int, bound: int) returns (dirs: seq<int>)
    requires |b| == 16 && 0 <= e < 16 && 0 <= bound
    requires Search(est, b, e, prev, bound).solved
    ensures Legal(e, dirs)
    ensures var r, s := Search(est, b, e, prev, bound), Slide(b, e, dirs);
      s.board == r.board && s.empty == r.empty && s.tiles == r.path && NonReversing(prev, r.path)
    decreases bound, 2, 0
  {
    if est(b) == 0 {
      dirs := [];
    } else {
      dirs := NeighboursWalk(est, b, e, prev, bound, 0, IntMax);
    }
  }

  lemma {:induction false} NeighboursWalk(est: seq<int> -> nat, b: seq<int>, e: int, prev: int, bound: int, d: int, newBound: int)
    returns (dirs: seq<int>)
    requires |b| == 16 && 0 <= e < 16 && 0 <= bound && 0 <= d <= 4
    requires Neighbours(est, b, e, prev, bound, d, newBound).solved
    ensures Legal(e, dirs)
    ensures var r, s := Neighbours(est, b, e, prev, bound, d, newBound), Slide(b, e, dirs);
      s.board == r.board && s.empty == r.empty && s.tiles == r.path && NonReversing(prev, r.path)
    decreases bound, 1, 4 - d
  {
    var m := Neighbour(4, e, d);
    if m == -1 || b[m] == prev {
      dirs := NeighboursWalk(est, b, e, prev, bound, d + 1, newBound);
    } else {
      NeighbourRange(e, d);
      var a := Attempt(est, b, e, m, bound);
      if a.solved {
        var c := MakeMove(b, e, m);
        var rest := SearchWalk(est, c, m, b[m], bound - 1);
        dirs := [d] + rest;
        assert dirs[1..] == rest;
      } else {
        dirs := NeighboursWalk(est, b, e, prev, bound, d + 1, Min(a.value, newBound));
      }
    }
  }

  /** With an admissible table, the value of a failed search is a lower
      bound on the length of every goal walk: the least cut-off estimate
      never passes over a shorter solution. */
  lemma {:induction false} SearchLowerBound(est: seq<int> -> nat, b: seq<int>, e: int, prev: int, bound: int, dirs: seq<int>)
    requires Admissible(est) && |b| == 16 && 0 <= e < 16 && 0 <= bound
    requires GoalWalk(est, b, e, prev, dirs)
    requires !Search(est, b, e, prev, bound).solved
    ensures Search(est, b, e, prev, bound).value <= |dirs|
    decreases bound, 2, 0
  {
    NeighboursLowerBound(est, b, e, prev, bound, 0, IntMax, dirs);
  }

  lemma {:induction false} NeighboursLowerBound(est: seq<int> -> nat, b: seq<int>, e: int, prev: int, bound: int, d: int, newBound: int, dirs: seq<int>)
    requires Admissible(est) && |b| == 16 && 0 <= e < 16 && 0 <= bound && 0 <= d <= 4
    requires GoalWalk(est, b, e, prev, dirs) && dirs != []
    requires dirs[0] < d ==> newBound <= |dirs|
    requires !Neighbours(est, b, e, prev, bound, d, newBound).solved
    ensures Neighbours(est, b, e, prev, bound, d, newBound).value <= |dirs|
    decreases bound, 1, 4 - d
  {
    if d < 4 {
      FirstStep(est, b, e, prev, dirs);
      var m := Neighbour(4, e, d);
      if m == -1 || b[m] == prev {
        NeighboursLowerBound(est, b, e, prev, bound, d + 1, newBound, dirs);
      } else {
        NeighbourRange(e, d);
        var a := Attempt(est, b, e, m, bound);
        if dirs[0] == d {
          AttemptLowerBound(est, b, e, m, bound, dirs[1..]);
        }
        NeighboursLowerBound(est, b, e, prev, bound, d + 1, Min(a.value, newBound), dirs);
      }
    }
  }

  lemma {:induction false} AttemptLowerBound(est: seq<int> -> nat, b: seq<int>, e: int, m: int, bound: int, rest: seq<int>)
    requires Admissible(est) && |b| == 16 && 0 <= e < 16 && 0 <= m < 16 && 0 <= bound
    requires GoalWalk(est, MakeMove(b, e, m), m, b[m], rest) && est(MakeMove(b, e, m)) <= |rest|
    requires !Attempt(est, b, e, m, bound).solved
    ensures Attempt(est, b, e, m, bound).value <= |rest| + 1
    decreases bound, 0, 0
  {
    var c := MakeMove(b, e, m);
    if 1 + est(c) <= bound {
      SearchLowerBound(est, c, m, b[m], bound - 1, rest);
    }
  }

  /** The first move of a goal walk is a move the search tries, and the
      rest of the walk is a goal walk from the board it leads to, at least
      as long as that board's heuristic. */
  lemma FirstStep(est: seq<int> -> nat, b: seq<int>, e: int, prev: int, dirs: seq<int>)
    requires Admissible(est) && |b| == 16 && 0 <= e < 16
    requires GoalWalk(est, b, e, prev, dirs) && dirs != []
    ensures 0 <= dirs[0] < 4 && 0 <= Neighbour(4, e, dirs[0]) < 16
    ensures var m := Neighbour(4, e, dirs[0]); var c := MakeMove(b, e, m);
      b[m] != prev && GoalWalk(est, c, m, b[m], dirs[1..]) && est(c) <= |dirs| - 1
  {
    NeighbourRange(e, dirs[0]);
    var m := Neighbour(4, e, dirs[0]);
    var c := MakeMove(b, e, m);
    var s := Slide(c, m, dirs[1..]);
    assert Slide(b, e, dirs) == Slid(s.board, s.empty, [b[m]] + s.tiles);
    assert ([b[m]] + s.tiles)[1..] == s.tiles;
  }

  // ---------------------------------------------------------------------
  // The search node, moved in place.

  /** `valid_moves[e][d]`: the neighbour of cell `e` in direction `d`, or -1. */
  method ValidMove(e: int, d: int) returns (m: int)
    requires 0 <= e < 16 && 0 <= d < 4
    ensures m == Neighbour(4, e, d)
    ensures m != -1 ==> 0 <= m < 16 && m != e
  {
    LookupValidMove4(e, d);
    m := ValidMoves4[e][d];
    if m != -1 {
      NeighbourSymmetric(4, e, d);
    }
  }

  /** `node`: a board of 16 cells, the index of its empty cell, its
      heuristic, and the tiles moved since the root, in a buffer of 80 (the
      most moves any 4x4 position needs). */
  class SearchNode {
    const board: array<int>
    var emptyIndex: int
    var heuristic: int
    var numMoves: int
    const moves: array<int>

    /** The empty cell holds 0, the heuristic is the table's value for the
        board, and the moves fit the buffer. */
    ghost predicate Valid(est: seq<int> -> nat)
      reads this, board
    {
      board.Length == 16 && moves.Length == 80 &&
      0 <= emptyIndex < 16 && board[emptyIndex] == 0 &&
      heuristic == est(board[..]) && 0 <= numMoves <= 80
    }

    /** The node is on the board and empty cell of `r`, and its moves are
        the moves `m0` it had, `n0` of them, followed by the path of `r`. */
    ghost predicate Reached(r: Found, n0: int, m0: seq<int>)
      reads this, board, moves
    {
      board[..] == r.board && emptyIndex == r.empty &&
      numMoves == n0 + |r.path| && 0 <= numMoves <= moves.Length && moves[..numMoves] == m0 + r.path
    }

    /** The tile of the last move, read as `moves[num_moves - 1]`; at the
        root, which has no last move, the sentinel `NoMove`. */
    function LastMove(): (tile: int)
      reads this, moves
      requires 0 <= numMoves <= moves.Length
      ensures numMoves == 0 ==> tile == NoMove
      ensures numMoves > 0 ==> tile == moves[numMoves - 1]
    {
      if numMoves == 0 then NoMove else moves[numMoves - 1]
    }

    /** The root node of `dim4_solver`: a copy of the board, the last empty
        cell found as its empty cell, no moves, and the table's heuristic. */
    constructor (b: array<int>, table: array<Byte>, reflectedTiles: seq<seq<int>>)
      requires b.Length == 16 && 0 in b[..]
      requires table.Length == TotalStates && ReflectedTilesOK(reflectedTiles)
      ensures Valid(Estimate(Tables(table[..], reflectedTiles)))
      ensures fresh(board) && fresh(moves)
      ensures board[..] == b[..] && numMoves == 0
      ensures forall k :: emptyIndex < k < 16 ==> board[k] != 0
    {
      board := new int[16];
      moves := new int[80];
      new;
      emptyIndex := CopyBoard(b, board);
      numMoves := 0;
      heuristic := GetHeuristic(table, board, reflectedTiles);
    }

    /** The copy loop of `dim4_solver`: copies the board cell by cell and
        returns the last cell holding 0. */
    static method CopyBoard(b: array<int>, board: array<int>) returns (emptyIndex: int)
      requires b.Length == 16 && board.Length == 16 && b != board && 0 in b[..]
      modifies board
      ensures board[..] == b[..]
      ensures 0 <= emptyIndex < 16 && b[emptyIndex] == 0
      ensures forall k :: emptyIndex < k < 16 ==> b[k] != 0
    {
      var i := 0;
      emptyIndex := -1;
      while i < 16
        invariant 0 <= i <= 16
        invariant board[..i] == b[..i]
        invariant -1 <= emptyIndex < i && (emptyIndex >= 0 ==> b[emptyIndex] == 0)
        invariant emptyIndex == -1 ==> 0 !in b[..i]
        invariant forall k :: emptyIndex < k < i ==> b[k] != 0
      {
        if b[i] == 0 {
          emptyIndex := i;
        }
        board[i] := b[i];
        i := i + 1;
      }
      assert board[..] == board[..16] && b[..16] == b[..];
    }

    /** `depth_first_search`: the node ends where `Search` says, its moves
        extended by the tiles `Search` reports, and the value and the
        solved flag are those of `Search`. */
    method DepthFirstSearch(bound: int, table: array<Byte>, reflectedTiles: seq<seq<int>>, ghost est: seq<int> -> nat)
      returns (solved: bool, value: int)
      requires ReadsTable(est, table[..], reflectedTiles) && Valid(est)
      requires heuristic <= bound && numMoves + bound <= 80
      modifies this, board, moves
      ensures Valid(est)
      ensures var r := Search(est, old(board[..]), old(emptyIndex), old(LastMove()), bound);
        solved == r.solved && value == r.value && Reached(r, old(numMoves), old(moves[..numMoves]))
      decreases bound, 1
    {
      if heuristic == 0 {
        return true, 0;
      }
      ghost var b0, e0, n0, m0, prev := board[..], emptyIndex, numMoves, moves[..numMoves], LastMove();
      var newBound := IntMax;
      for i := 0 to 4
        invariant Valid(est)
        invariant board[..] == b0 && emptyIndex == e0 && numMoves == n0 && moves[..n0] == m0
        invariant Neighbours(est, b0, e0, prev, bound, i, newBound) == Search(est, b0, e0, prev, bound)
      {
        var moveIndex := ValidMove(emptyIndex, i);
        if moveIndex != -1 {
          if board[moveIndex] != LastMove() {
            var s, b := TryMove(moveIndex, bound, table, reflectedTiles, est);
            if s {
              return true, b;
            }
            newBound := Min(b, newBound);
          }
        }
      }
      return false, newBound;
    }

    /** One neighbour of `depth_first_search`: make the move, record it,
        search below it when its estimate is within the bound, and undo it
        unless the search below solved the puzzle. */
    method TryMove(moveIndex: int, bound: int, table: array<Byte>, reflectedTiles: seq<seq<int>>, ghost est: seq<int> -> nat)
      returns (solved: bool, value: int)
      requires ReadsTable(est, table[..], reflectedTiles) && Valid(est)
      requires 0 <= moveIndex < 16 && moveIndex != emptyIndex
      requires 0 < heuristic <= bound && numMoves + bound <= 80
      modifies this, board, moves
      ensures Valid(est)
      ensures var a := Attempt(est, old(board[..]), old(emptyIndex), moveIndex, bound);
        solved == a.solved && value == a.value && Reached(a, old(numMoves), old(moves[..numMoves]))
      decreases bound, 0
    {
      ghost var b0, n0, m0 := board[..], numMoves, moves[..numMoves];
      ghost var a := Attempt(est, b0, emptyIndex, moveIndex, bound);
      var tile := board[moveIndex];
      var oldEmptyIndex := emptyIndex;
      var oldHeuristic := heuristic;
      Advance(moveIndex, table, reflectedTiles, est);
      value := 1 + heuristic;
      if value <= bound {
        ghost var sub := Search(est, board[..], moveIndex, tile, bound - 1);
        assert a == if sub.solved then Found(true, 1 + sub.value, sub.board, sub.empty, [tile] + sub.path)
          else Found(false, 1 + sub.value, b0, oldEmptyIndex, []);
        var v;
        solved, v := Descend(bound - 1, table, reflectedTiles, est, oldEmptyIndex, tile, oldHeuristic, b0);
        value := 1 + v;
      } else {
        assert a == Found(false, value, b0, oldEmptyIndex, []);
        Retreat(oldEmptyIndex, moveIndex, tile, oldHeuristic, b0);
        solved := false;
      }
    }

    /** Searching below a move that has just been made: on success the
        node stays at the goal; on failure the move is undone. */
    method Descend(bound: int, table: array<Byte>, reflectedTiles: seq<seq<int>>, ghost est: seq<int> -> nat,
                   oldEmptyIndex: int, tile: int, oldHeuristic: int, ghost b0: seq<int>)
      returns (solved: bool, value: int)
      requires ReadsTable(est, table[..], reflectedTiles) && Valid(est)
      requires heuristic <= bound && 1 <= numMoves && numMoves + bound <= 80 && LastMove() == tile
      requires 0 <= oldEmptyIndex < 16 && oldEmptyIndex != emptyIndex && oldHeuristic == est(b0)
      requires |b0| == 16 && b0[oldEmptyIndex] == 0 && b0[emptyIndex] == tile
      requires board[..] == MakeMove(b0, oldEmptyIndex, emptyIndex)
      modifies this, board, moves
      ensures Valid(est)
      ensures var sub := Search(est, old(board[..]), old(emptyIndex), tile, bound);
        solved == sub.solved && value == sub.value &&
        (solved ==> Reached(sub, old(numMoves), old(moves[..numMoves]))) &&
        (!solved ==>
           board[..] == b0 && emptyIndex == oldEmptyIndex && numMoves == old(numMoves) - 1 &&
           moves[..numMoves] == old(moves[..numMoves - 1]))
      decreases bound, 2
    {
      ghost var c := board[..];
      var e := emptyIndex;
      solved, value := DepthFirstSearch(bound, table, reflectedTiles, est);
      SearchOutcome(est, c, e, tile, bound);
      if !solved {
        Retreat(oldEmptyIndex, e, tile, oldHeuristic, b0);
      }
    }

    /** The make-move half: the tile at `moveIndex` slides into the empty
        cell, the heuristic is looked up again and the tile is recorded. */
    method Advance(moveIndex: int, table: array<Byte>, reflectedTiles: seq<seq<int>>, ghost est: seq<int> -> nat)
      requires ReadsTable(est, table[..], reflectedTiles) && Valid(est)
      requires 0 <= moveIndex < 16 && moveIndex != emptyIndex && numMoves < 80
      modifies this, board, moves
      ensures Valid(est)
      ensures board[..] == MakeMove(old(board[..]), old(emptyIndex), moveIndex) && emptyIndex == moveIndex
      ensures numMoves == old(numMoves) + 1 && moves[..numMoves] == old(moves[..numMoves]) + [old(board[moveIndex])]
      ensures LastMove() == old(board[moveIndex])
    {
      var tile := board[moveIndex];
      ghost var ms := moves[..numMoves];
      MakeMoveOn(board, emptyIndex, moveIndex);
      emptyIndex := moveIndex;
      heuristic := Estimated(table, board, reflectedTiles, est);
      moves[numMoves] := tile;
      numMoves := numMoves + 1;
      assert moves[..numMoves] == ms + [tile];
    }

    /** The table lookup of `get_heurisitic` is the estimate of the board. */
    static method Estimated(table: array<Byte>, board: array<int>, reflectedTiles: seq<seq<int>>, ghost est: seq<int> -> nat)
      returns (h: int)
      requires ReadsTable(est, table[..], reflectedTiles) && board.Length == 16
      ensures h == est(board[..])
    {
      h := GetHeuristic(table, board, reflectedTiles);
    }

    /** The undo half: the tile goes back to `moveIndex`, `oldEmptyIndex` is
        the empty cell again, the saved heuristic is restored and the last
        recorded move is cleared. */
    method Retreat(oldEmptyIndex: int, moveIndex: int, tile: int, oldHeuristic: int, ghost b0: seq<int>)
      requires board.Length == 16 && moves.Length == 80 && 0 <= oldEmptyIndex < 16 && 0 <= moveIndex < 16
      requires |b0| == 16 && oldEmptyIndex != moveIndex && b0[oldEmptyIndex] == 0 && b0[moveIndex] == tile
      requires board[..] == MakeMove(b0, oldEmptyIndex, moveIndex)
      requires 1 <= numMoves <= 80
      modifies this, board, moves
      ensures board[..] == b0
      ensures emptyIndex == oldEmptyIndex && heuristic == oldHeuristic
      ensures numMoves == old(numMoves) - 1 && moves[..numMoves] == old(moves[..numMoves - 1])
    {
      UndoMoveOn(board, oldEmptyIndex, moveIndex, tile);
      UndoRestores(b0, oldEmptyIndex, moveIndex);
      emptyIndex := oldEmptyIndex;
      heuristic := oldHeuristic;
      numMoves := numMoves - 1;
      moves[numMoves] := 0;
    }
  }

  // ---------------------------------------------------------------------
  // The outer loop.

  /** The estimate read from the tables is the heuristic of every board. */
  lemma EstimateReadsTable(t: Tables)
    requires TablesOK(t)
    ensures ReadsTable(Estimate(t), t.table, t.reflectedTiles)
  {
    forall b: seq<int> | |b| == 16
      ensures Estimate(t)(b) == HeuristicOf(t.table, b, t.reflectedTiles)
    {
      assert Estimate(t)(b) == TableHeuristic(t, b);
    }
  }

  /** The outer loop of `dim4_solver`: the first bound is the root's
      heuristic; each failed search gives the next bound; the loop gives up
      when a search returns `INT_MAX`, and also, in this model, once the
      bound exceeds 80, the most moves any 4x4 position needs: a round with
      a larger bound could append an 81st move to the 80-entry move buffer,
      while a round with bound 80 appends at most 80. On success the root
      holds the goal board and the moves of a goal walk; with an admissible
      table no goal walk is shorter. On failure the root is as it was and,
      with an admissible table, no goal walk has 80 moves or fewer. */
  method IdaStar(root: SearchNode, table: array<Byte>, reflectedTiles: seq<seq<int>>, ghost est: seq<int> -> nat)
    returns (found: bool, ghost dirs: seq<int>)
    requires ReadsTable(est, table[..], reflectedTiles)
    requires root.Valid(est) && root.numMoves == 0
    modifies root, root.board, root.moves
    ensures root.Valid(est)
    ensures found ==> Solution(est, old(root.board[..]), old(root.emptyIndex), dirs, root.board[..], root.emptyIndex, root.moves[..root.numMoves])
    ensures found && Admissible(est) ==> Shortest(est, old(root.board[..]), old(root.emptyIndex), root.numMoves)
    ensures !found ==> root.board[..] == old(root.board[..]) && root.emptyIndex == old(root.emptyIndex) && root.numMoves == 0
    ensures !found && Admissible(est) ==> Shortest(est, old(root.board[..]), old(root.emptyIndex), 81)
  {
    ghost var b0, e0 := root.board[..], root.emptyIndex;
    var bound := root.heuristic;
    var solved := false;
    dirs := [];
    if Admissible(est) {
      forall walk | GoalWalk(est, b0, e0, NoMove, walk) ensures bound <= |walk| {
        assert Slide(b0, e0, walk).board == Slide(b0, e0, walk).board;
      }
    }
    while !solved
      invariant root.Valid(est) && 0 <= bound
      invariant !solved ==> root.heuristic <= bound
      invariant !solved ==> root.board[..] == b0 && root.emptyIndex == e0 && root.numMoves == 0
      invariant !solved && Admissible(est) ==> Shortest(est, b0, e0, bound)
      invariant solved ==> Solution(est, b0, e0, dirs, root.board[..], root.emptyIndex, root.moves[..root.numMoves])
      invariant solved && Admissible(est) ==> Shortest(est, b0, e0, root.numMoves)
      invariant solved ==> bound <= 80
      decreases if solved then 0 else 1, 81 - bound
    {
      if bound > 80 {
        return false, dirs;
      }
      solved, bound, dirs := Round(root, bound, table, reflectedTiles, est);
      if bound == IntMax {
        return false, dirs;
      }
    }
    found := true;
  }

  /** The root reaches the goal board `goal`, with empty cell `empty`, along
      the goal walk `dirs`, whose tiles are `tiles`. */
  ghost predicate Solution(est: seq<int> -> nat, b0: seq<int>, e0: int, dirs: seq<int>, goal: seq<int>, empty: int, tiles: seq<int>)
    requires |b0| == 16 && 0 <= e0 < 16
  {
    GoalWalk(est, b0, e0, NoMove, dirs) && Slide(b0, e0, dirs) == Slid(goal, empty, tiles)
  }

  /** No goal walk from the root is shorter than `n` moves. */
  ghost predicate Shortest(est: seq<int> -> nat, b0: seq<int>, e0: int, n: int)
    requires |b0| == 16 && 0 <= e0 < 16
  {
    forall walk :: GoalWalk(est, b0, e0, NoMove, walk) ==> n <= |walk|
  }

  /** One round of the outer loop: a search from the root with the bound.
      A solved round leaves the root on the goal board with the moves of
      a goal walk no longer than the bound; a failed one restores the root
      and returns a larger bound, below which, with an admissible table,
      there is no goal walk. */
  method Round(root: SearchNode, bound: int, table: array<Byte>, reflectedTiles: seq<seq<int>>, ghost est: seq<int> -> nat)
    returns (solved: bool, newBound: int, ghost dirs: seq<int>)
    requires ReadsTable(est, table[..], reflectedTiles)
    requires root.Valid(est) && root.numMoves == 0 && root.heuristic <= bound <= 80
    modifies root, root.board, root.moves
    ensures root.Valid(est)
    ensures solved ==>
      Solution(est, old(root.board[..]), old(root.emptyIndex), dirs, root.board[..], root.emptyIndex, root.moves[..root.numMoves]) &&
      root.numMoves == newBound <= bound
    ensures !solved ==>
      root.board[..] == old(root.board[..]) && root.emptyIndex == old(root.emptyIndex) && root.numMoves == 0 &&
      bound < newBound <= IntMax &&
      (Admissible(est) ==> Shortest(est, old(root.board[..]), old(root.emptyIndex), newBound))
  {
    ghost var b0, e0 := root.board[..], root.emptyIndex;
    SearchOutcome(est, b0, e0, NoMove, bound);
    solved, newBound := root.DepthFirstSearch(bound, table, reflectedTiles, est);
    dirs := [];
    if solved {
      dirs := SearchWalk(est, b0, e0, NoMove, bound);
    } else if Admissible(est) {
      forall walk | GoalWalk(est, b0, e0, NoMove, walk) ensures newBound <= |walk| {
        SearchLowerBound(est, b0, e0, NoMove, bound, walk);
      }
    }
  }
}
