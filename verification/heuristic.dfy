/** `get_heurisitic` of the two solvers: the sum of the three pattern
    lookups for the board, the sum of the lookups for the board reflected
    about its main diagonal, and the larger of the two. The table is a
    parameter: its contents are whatever the generator wrote. */
module Heuristic {
  import opened Common
  import opened Geometry
  import opened PatternIndex

  /** The reflected tile orderings, one per pattern: each as long as its
      pattern. */
  predicate ReflectedTilesOK(reflectedTiles: seq<seq<int>>)
  {
    |reflectedTiles| == NumPatterns &&
    forall i :: 0 <= i < NumPatterns ==> |reflectedTiles[i]| == |Patterns[i].tiles|
  }

  /** The tiles a lookup of pattern `i` uses. */
  function LookupTiles(reflectedTiles: seq<seq<int>>, i: int, reflected: bool): (tiles: seq<int>)
    requires ReflectedTilesOK(reflectedTiles) && 0 <= i < NumPatterns
    ensures |tiles| == |Patterns[i].tiles|
  {
    if reflected then reflectedTiles[i] else Patterns[i].tiles
  }

  /** The table cell pattern `i` reads for a board: its index, offset into
      the pattern's slice. */
  function Slot(board: seq<int>, reflectedTiles: seq<seq<int>>, i: int, reflected: bool): (r: int)
    requires |board| == BoardCells && ReflectedTilesOK(reflectedTiles) && 0 <= i < NumPatterns
    ensures Patterns[i].arrayOffset <= r < Patterns[i].arrayOffset + Pow(BoardCells, |Patterns[i].tiles|)
    ensures 0 <= r < TotalStates
  {
    IndexBound(board, LookupTiles(reflectedTiles, i, reflected), true, reflected);
    SlicesFitTable();
    Index(board, LookupTiles(reflectedTiles, i, reflected), true, reflected) + Patterns[i].arrayOffset
  }

  /** The sum of the lookups of patterns 0 .. n - 1. */
  function PatternSum(table: seq<Byte>, board: seq<int>, reflectedTiles: seq<seq<int>>, reflected: bool, n: nat): int
    requires |table| == TotalStates && |board| == BoardCells && ReflectedTilesOK(reflectedTiles)
    requires n <= NumPatterns
  {
    if n == 0 then 0
    else PatternSum(table, board, reflectedTiles, reflected, n - 1) + table[Slot(board, reflectedTiles, n - 1, reflected)] as int
  }

  /** The heuristic: the larger of the plain and the reflected sums. */
  function HeuristicOf(table: seq<Byte>, board: seq<int>, reflectedTiles: seq<seq<int>>): int
    requires |table| == TotalStates && |board| == BoardCells && ReflectedTilesOK(reflectedTiles)
  {
    Max(PatternSum(table, board, reflectedTiles, false, NumPatterns),
        PatternSum(table, board, reflectedTiles, true, NumPatterns))
  }

  /** Each sum is between 0 and 255 per pattern looked up. */
  lemma {:induction false} PatternSumBound(table: seq<Byte>, board: seq<int>, reflectedTiles: seq<seq<int>>, reflected: bool, n: nat)
    requires |table| == TotalStates && |board| == BoardCells && ReflectedTilesOK(reflectedTiles)
    requires n <= NumPatterns
    ensures 0 <= PatternSum(table, board, reflectedTiles, reflected, n) <= 255 * n
  {
    if n > 0 {
      PatternSumBound(table, board, reflectedTiles, reflected, n - 1);
    }
  }

  /** The heuristic is at least each sum, is one of them, and is at most
      3 * 255. */
  lemma HeuristicIsLargerSum(table: seq<Byte>, board: seq<int>, reflectedTiles: seq<seq<int>>)
    requires |table| == TotalStates && |board| == BoardCells && ReflectedTilesOK(reflectedTiles)
    ensures var h := HeuristicOf(table, board, reflectedTiles);
      var plain := PatternSum(table, board, reflectedTiles, false, NumPatterns);
      var mirrored := PatternSum(table, board, reflectedTiles, true, NumPatterns);
      h >= plain && h >= mirrored && (h == plain || h == mirrored) && 0 <= h <= 3 * 255
  {
    PatternSumBound(table, board, reflectedTiles, false, NumPatterns);
    PatternSumBound(table, board, reflectedTiles, true, NumPatterns);
  }

  /** On a board of distinct labels, each reflected lookup reads the cell the
      plain lookup of the reflected tiles reads on the transposed board. */
  lemma ReflectedSlotIsTransposedBoard(board: seq<int>, reflectedTiles: seq<seq<int>>, i: int)
    requires |board| == BoardCells && Distinct(board) && ReflectedTilesOK(reflectedTiles) && 0 <= i < NumPatterns
    ensures Slot(board, reflectedTiles, i, true) ==
      Index(TransposeBoard(board), reflectedTiles[i], true, false) + Patterns[i].arrayOffset
  {
    ReflectedIndexIsTransposedBoard(board, reflectedTiles[i]);
  }

  /** One more pattern looked up. */
  lemma SumStep(table: seq<Byte>, board: seq<int>, reflectedTiles: seq<seq<int>>, reflected: bool, i: nat, index: int)
    requires |table| == TotalStates && |board| == BoardCells && ReflectedTilesOK(reflectedTiles)
    requires i < NumPatterns
    requires index == Index(board, if reflected then reflectedTiles[i] else Patterns[i].tiles, true, reflected)
    ensures 0 <= index + Patterns[i].arrayOffset < |table|
    ensures PatternSum(table, board, reflectedTiles, reflected, i + 1) ==
      PatternSum(table, board, reflectedTiles, reflected, i) + table[index + Patterns[i].arrayOffset] as int
  {
    assert index + Patterns[i].arrayOffset == Slot(board, reflectedTiles, i, reflected);
  }

  /** `get_heurisitic`: for each pattern the plain and the reflected lookup
      are added to their sums; the larger sum is returned. */
  method GetHeuristic(table: array<Byte>, board: array<int>, reflectedTiles: seq<seq<int>>) returns (h: int)
    requires table.Length == TotalStates && board.Length == BoardCells && ReflectedTilesOK(reflectedTiles)
    ensures h == HeuristicOf(table[..], board[..], reflectedTiles)
    ensures h >= PatternSum(table[..], board[..], reflectedTiles, false, NumPatterns)
    ensures h >= PatternSum(table[..], board[..], reflectedTiles, true, NumPatterns)
    ensures 0 <= h <= 3 * 255
  {
    h := 0;
    var reflectedH := 0;
    for i := 0 to NumPatterns
      invariant h == PatternSum(table[..], board[..], reflectedTiles, false, i)
      invariant reflectedH == PatternSum(table[..], board[..], reflectedTiles, true, i)
    {
      var pattern := Patterns[i];
      var index := ArrIndex(board, pattern.tiles, reflectedTiles[i], false);
      SumStep(table[..], board[..], reflectedTiles, false, i, index);
      h := h + table[index + pattern.arrayOffset] as int;
      index := ArrIndex(board, pattern.tiles, reflectedTiles[i], true);
      SumStep(table[..], board[..], reflectedTiles, true, i, index);
      reflectedH := reflectedH + table[index + pattern.arrayOffset] as int;
    }
    if h < reflectedH {
      h := reflectedH;
    }
    HeuristicIsLargerSum(table[..], board[..], reflectedTiles);
  }
}
