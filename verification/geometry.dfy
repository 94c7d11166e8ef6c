/** Board geometry shared by the solvers and the table generators: the
    `valid_moves` neighbour tables for the 3x3 and 4x4 boards (dim4.h and the
    table built at the start of the 3x3 generator), the three disjoint tile
    patterns of the 4x4 pattern database and their slices of the one flat
    heuristic table. Boards are read left to right, top to bottom, so cell
    (r, c) of a side x side board is index r * side + c. */
module Geometry {
  import opened Common

  /** The four directions of a `valid_moves` row, clockwise from the top: the
      neighbour above the empty cell (its tile slides down), to the right
      (slides left), below (slides up) and to the left (slides right). */
  const Above := 0
  const Right := 1
  const Below := 2
  const Left := 3

  /** The index of the cell next to cell `i` in direction `d`, or -1 when that
      direction leaves the board. */
  function Neighbour(side: nat, i: int, d: int): int
    requires 0 <= i && 0 <= d < 4 && side >= 1
  {
    if d == Above then (if i >= side then i - side else -1)
    else if d == Right then (if i % side != side - 1 then i + 1 else -1)
    else if d == Below then (if i < side * (side - 1) then i + side else -1)
    else (if i % side != 0 then i - 1 else -1)
  }

  /** Where cell (r, c) sits relative to the first and the last row. */
  lemma CellIndexBounds(side: nat, r: int, c: int)
    requires side >= 1 && 0 <= r < side && 0 <= c < side
    ensures 0 <= r * side + c < side * side
    ensures r * side + c >= side <==> r >= 1
    ensures r * side + c < side * (side - 1) <==> r < side - 1
  {
    MulMonotone(side, 0, r);
    MulMonotone(side, r, side - 1);
    if r >= 1 {
      MulMonotone(side, 1, r);
    }
    if r < side - 1 {
      MulMonotone(side, r, side - 2);
    }
  }

  /** Every entry is the orthogonally adjacent cell in its direction, and an
      entry is -1 exactly when that direction leaves the board. */
  lemma NeighbourIsAdjacent(side: nat, r: int, c: int, d: int)
    requires side >= 1 && 0 <= r < side && 0 <= c < side && 0 <= d < 4
    ensures 0 <= r * side + c < side * side
    ensures d == Above ==> Neighbour(side, r * side + c, d) == (if r > 0 then (r - 1) * side + c else -1)
    ensures d == Right ==> Neighbour(side, r * side + c, d) == (if c < side - 1 then r * side + c + 1 else -1)
    ensures d == Below ==> Neighbour(side, r * side + c, d) == (if r < side - 1 then (r + 1) * side + c else -1)
    ensures d == Left ==> Neighbour(side, r * side + c, d) == (if c > 0 then r * side + c - 1 else -1)
  {
    CellIndexBounds(side, r, c);
    DivModOfDigit(side, r, c);
    assert (r - 1) * side == r * side - side;
    assert (r + 1) * side == r * side + side;
  }

  /** The direction that leads back: above and below, right and left. */
  function Opposite(d: int): int
    requires 0 <= d < 4
  {
    (d + 2) % 4
  }

  /** Neighbours are symmetric: from the neighbour in direction `d`, the
      opposite direction leads back to the cell itself. */
  lemma NeighbourSymmetric(side: nat, e: int, d: int)
    requires side >= 1 && 0 <= e < side * side && 0 <= d < 4 && Neighbour(side, e, d) != -1
    ensures 0 <= Neighbour(side, e, d) < side * side
    ensures Neighbour(side, Neighbour(side, e, d), Opposite(d)) == e
  {
    var r, c := SplitCell(side, e);
    NeighbourSymmetricCell(side, r, c, d);
  }

  /** Every cell of the board has a row and a column. */
  lemma SplitCell(side: nat, e: int) returns (r: int, c: int)
    requires side >= 1 && 0 <= e < side * side
    ensures 0 <= r < side && 0 <= c < side && e == r * side + c
  {
    DivModSplit(e, side);
    QuotientBelow(e, side, side);
    r, c := e / side, e % side;
    assert side * r == r * side;
  }

  lemma NeighbourSymmetricCell(side: nat, r: int, c: int, d: int)
    requires side >= 1 && 0 <= r < side && 0 <= c < side && 0 <= d < 4
    requires Neighbour(side, r * side + c, d) != -1
    ensures 0 <= Neighbour(side, r * side + c, d) < side * side
    ensures Neighbour(side, Neighbour(side, r * side + c, d), Opposite(d)) == r * side + c
  {
    NeighbourIsAdjacent(side, r, c, d);
    if d == Above {
      NeighbourIsAdjacent(side, r - 1, c, Below);
    } else if d == Right {
      NeighbourIsAdjacent(side, r, c + 1, Left);
    } else if d == Below {
      NeighbourIsAdjacent(side, r + 1, c, Above);
    } else {
      NeighbourIsAdjacent(side, r, c - 1, Right);
    }
  }

  /** Slides the tile at cell `m` into the empty cell `e`; `m` becomes the
      empty cell (the make-move step of every search). */
  function MakeMove(b: seq<int>, e: int, m: int): (r: seq<int>)
    requires 0 <= e < |b| && 0 <= m < |b|
    ensures |r| == |b|
  {
    b[e := b[m]][m := 0]
  }

  /** A move out of the empty cell exchanges two entries, and sliding the
      tile back (the undo step) restores the board. */
  lemma MoveIsSwap(b: seq<int>, e: int, m: int)
    requires 0 <= e < |b| && 0 <= m < |b| && b[e] == 0 && e != m
    ensures MakeMove(b, e, m) == Swap(b, e, m)
    ensures MakeMove(MakeMove(b, e, m), m, e) == b
  {
    var r := MakeMove(MakeMove(b, e, m), m, e);
    assert forall k :: 0 <= k < |b| ==> r[k] == b[k];
  }

  /** Undoing a move in the source's order (empty the cell, put the tile
      back) restores the board. */
  lemma UndoRestores(b: seq<int>, e: int, m: int)
    requires 0 <= e < |b| && 0 <= m < |b| && e != m && b[e] == 0
    ensures MakeMove(b, e, m)[e := 0][m := b[m]] == b
  {
  }

  /** The make-move on the working board: the tile at `m` slides into the
      empty cell `e`. */
  method MakeMoveOn(board: array<int>, e: int, m: int)
    requires 0 <= e < board.Length && 0 <= m < board.Length
    modifies board
    ensures board[..] == MakeMove(old(board[..]), e, m)
  {
    var tile := board[m];
    board[e] := tile;
    board[m] := 0;
  }

  /** The undo: the empty cell `e` is emptied again and `tile` goes back to
      `m`. */
  method UndoMoveOn(board: array<int>, e: int, m: int, tile: int)
    requires 0 <= e < board.Length && 0 <= m < board.Length
    modifies board
    ensures board[..] == old(board[..])[e := 0][m := tile]
  {
    board[e] := 0;
    board[m] := tile;
  }

  /** The board after sliding in the given directions from `b`; a
      direction that leaves the board is no move. */
  function Play(side: nat, b: seq<int>, dirs: seq<int>): (r: seq<int>)
    requires side >= 1 && |b| == side * side && 0 in b
    ensures |r| == side * side && 0 in r
    decreases |dirs|
  {
    if dirs == [] then b
    else
      var e, d := IndexOf(b, 0), dirs[0];
      if 0 <= d < 4 && Neighbour(side, e, d) != -1 then
        var m := Neighbour(side, e, d);
        NeighbourSymmetric(side, e, d);
        assert MakeMove(b, e, m)[m] == 0;
        Play(side, MakeMove(b, e, m), dirs[1..])
      else Play(side, b, dirs[1..])
  }

  /** The 4x4 table of dim4.h, one row per position of the empty cell. */
  const ValidMoves4: seq<seq<int>> := [
    [-1, 1, 4, -1], [-1, 2, 5, 0], [-1, 3, 6, 1], [-1, -1, 7, 2],
    [0, 5, 8, -1], [1, 6, 9, 4], [2, 7, 10, 5], [3, -1, 11, 6],
    [4, 9, 12, -1], [5, 10, 13, 8], [6, 11, 14, 9], [7, -1, 15, 10],
    [8, 13, -1, -1], [9, 14, -1, 12], [10, 15, -1, 13], [11, -1, -1, 14]]

  /** The literal table of dim4.h is the neighbour table of a 4x4 board. */
  lemma ValidMoves4IsNeighbourTable()
    ensures |ValidMoves4| == 16
    ensures forall i, d :: 0 <= i < 16 && 0 <= d < 4 ==> |ValidMoves4[i]| == 4 && ValidMoves4[i][d] == Neighbour(4, i, d)
  {
    forall i, d | 0 <= i < 16 && 0 <= d < 4
      ensures |ValidMoves4[i]| == 4 && ValidMoves4[i][d] == Neighbour(4, i, d)
    {
      assert i == 0 || i == 1 || i == 2 || i == 3 || i == 4 || i == 5 || i == 6 || i == 7 ||
             i == 8 || i == 9 || i == 10 || i == 11 || i == 12 || i == 13 || i == 14 || i == 15;
    }
  }

  /** One lookup in the 4x4 table. */
  lemma LookupValidMove4(i: int, d: int)
    requires 0 <= i < 16 && 0 <= d < 4
    ensures |ValidMoves4| == 16 && |ValidMoves4[i]| == 4 && ValidMoves4[i][d] == Neighbour(4, i, d)
  {
    ValidMoves4IsNeighbourTable();
  }

  /** The three rows documented in dim4.h. */
  lemma DocumentedRows4()
    ensures ValidMoves4[6] == [2, 7, 10, 5]
    ensures ValidMoves4[8] == [4, 9, 12, -1]
    ensures ValidMoves4[15] == [11, -1, -1, 14]
  {
  }

  /** Number of directions of a row that stay on the board. */
  function MoveCount(row: seq<int>): nat
    requires |row| == 4
  {
    (if row[0] != -1 then 1 else 0) + (if row[1] != -1 then 1 else 0) +
    (if row[2] != -1 then 1 else 0) + (if row[3] != -1 then 1 else 0)
  }

  /** Corner cells have two moves, edge cells three and interior cells four. */
  lemma MoveCounts4(i: int)
    requires 0 <= i < 16
    ensures MoveCount(ValidMoves4[i]) == if i in {0, 3, 12, 15} then 2 else if i in {5, 6, 9, 10} then 4 else 3
  {
    assert i == 0 || i == 1 || i == 2 || i == 3 || i == 4 || i == 5 || i == 6 || i == 7 ||
           i == 8 || i == 9 || i == 10 || i == 11 || i == 12 || i == 13 || i == 14 || i == 15;
  }

  /** The 3x3 table as the 3x3 generator documents it. */
  lemma DocumentedRow3()
    ensures [Neighbour(3, 5, 0), Neighbour(3, 5, 1), Neighbour(3, 5, 2), Neighbour(3, 5, 3)] == [2, -1, 8, 4]
  {
  }

  /** Builds the 3x3 `valid_moves` table the way the 3x3 generator does, one
      row per position of the empty cell. */
  method BuildValidMoves3() returns (vm: array2<int>)
    ensures fresh(vm) && vm.Length0 == 9 && vm.Length1 == 4
    ensures forall i, d :: 0 <= i < 9 && 0 <= d < 4 ==> vm[i, d] == Neighbour(3, i, d)
  {
    vm := new int[9, 4];
    for i := 0 to 9
      invariant forall k, d :: 0 <= k < i && 0 <= d < 4 ==> vm[k, d] == Neighbour(3, k, d)
    {
      vm[i, 0] := if i >= 3 then i - 3 else -1;
      vm[i, 1] := if i % 3 != 3 - 1 then i + 1 else -1;
      vm[i, 2] := if i < 3 * (3 - 1) then i + 3 else -1;
      vm[i, 3] := if i % 3 != 0 then i - 1 else -1;
    }
  }

  /** A tile pattern of dim4.h: the pattern's tiles (`num_tiles` is their
      count) and where its slice starts in the flat heuristic table. */
  datatype TilePattern = TilePattern(tiles: seq<int>, arrayOffset: nat)

  const NumPatterns := 3
  const Patterns: seq<TilePattern> := [
    TilePattern([1, 5, 6, 9, 10, 13], 0),
    TilePattern([7, 8, 11, 12, 14, 15], 16777216),
    TilePattern([2, 3, 4], 33554432)]

  /** `TOTAL_STATES` = 16^6 * 2 + 16^3 and `VISITED_STATES` = 16^7. */
  const TotalStates := 33558528
  const VisitedStates := 268435456

  lemma PowersOf16()
    ensures Pow(16, 3) == 4096 && Pow(16, 6) == 16777216 && Pow(16, 7) == 268435456
  {
    assert Pow(16, 1) == 16;
    assert Pow(16, 2) == 256;
    assert Pow(16, 3) == 4096;
    assert Pow(16, 4) == 65536;
    assert Pow(16, 5) == 1048576;
    assert Pow(16, 6) == 16777216;
  }

  /** Each pattern lists distinct tiles. */
  lemma PatternTilesDistinct()
    ensures forall k :: 0 <= k < NumPatterns ==> Distinct(Patterns[k].tiles)
  {
    PairwiseDistinct(Patterns[0].tiles);
    PairwiseDistinct(Patterns[1].tiles);
    PairwiseDistinct(Patterns[2].tiles);
  }

  /** No tile belongs to two patterns. */
  lemma PatternsDisjoint()
    ensures |Patterns| == NumPatterns
    ensures forall k, l, t :: 0 <= k < l < NumPatterns && t in Patterns[k].tiles ==> t !in Patterns[l].tiles
  {
  }

  /** Together the patterns cover tiles 1 .. 15, and no other label. */
  lemma PatternsCoverTiles()
    ensures forall t :: (t in Patterns[0].tiles || t in Patterns[1].tiles || t in Patterns[2].tiles) <==> 1 <= t <= 15
    ensures |Patterns[0].tiles| + |Patterns[1].tiles| + |Patterns[2].tiles| == 15
  {
    forall t | 1 <= t <= 15 ensures t in Patterns[0].tiles || t in Patterns[1].tiles || t in Patterns[2].tiles {
      assert t == 1 || t == 2 || t == 3 || t == 4 || t == 5 || t == 6 || t == 7 || t == 8 ||
             t == 9 || t == 10 || t == 11 || t == 12 || t == 13 || t == 14 || t == 15;
    }
  }

  /** Each slice [offset, offset + 16^len) lies inside the table, and the
      slices follow one another without overlapping. The visited table of a
      pattern augmented with the empty tile needs 16^(len + 1) <= 16^7 entries. */
  lemma SlicesFitTable()
    ensures forall k :: 0 <= k < NumPatterns ==> 1 <= |Patterns[k].tiles| <= 6
    ensures forall k :: 0 <= k < NumPatterns ==> Patterns[k].arrayOffset + Pow(16, |Patterns[k].tiles|) <= TotalStates
    ensures forall k :: 0 <= k < NumPatterns - 1 ==> Patterns[k].arrayOffset + Pow(16, |Patterns[k].tiles|) <= Patterns[k + 1].arrayOffset
    ensures Patterns[2].arrayOffset + Pow(16, |Patterns[2].tiles|) == TotalStates
    ensures VisitedStates == Pow(16, 7)
  {
    PowersOf16();
  }
}
