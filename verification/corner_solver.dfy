/** The corner solver of dim4_solver.c: the lower-right 4x4 block of a
    larger board is relabelled as a 4x4 puzzle, solved by the IDA* search,
    and the search's moves are mapped back to tiles of the larger board and
    made with `slide_tile`. */
module CornerSolver {
  import opened Common
  import opened Geometry
  import opened Heuristic
  import opened Game
  import opened IdaSearch

  // ---------------------------------------------------------------------
  // Labels.

  /** The cell of the board of side n where tile v belongs, counted from
      the block's corner at (off, off). */
  function HomeRow(n: int, v: int): int
    requires n >= 1
  {
    (v - 1) / n
  }

  function HomeCol(n: int, v: int): int
    requires n >= 1
  {
    (v - 1) % n
  }

  /** Tile v belongs in the block of side n - off at (off, off), or is the
      empty tile. */
  predicate BelongsInCorner(n: int, off: int, v: int)
    requires n >= 1
  {
    v == 0 || (1 <= v <= n * n && off <= HomeRow(n, v) && off <= HomeCol(n, v))
  }

  /** The label of tile v on the 4x4 board: its home cell in the block, read
      row by row, plus one; the empty tile keeps 0. */
  function CornerLabel(n: int, off: int, v: int): int
    requires n >= 1
  {
    if v == 0 then 0 else (HomeRow(n, v) - off) * 4 + (HomeCol(n, v) - off) + 1
  }

  /** The tile of the larger board that carries the 4x4 label t. */
  function BoardTile(n: int, off: int, t: int): int
  {
    ((t - 1) / 4 + off) * n + (t - 1) % 4 + off + 1
  }

  /** A tile that belongs in the block gets a label of the 4x4 board, and
      mapping the label back gives the tile. */
  lemma LabelRoundTrip(n: int, off: int, v: int)
    requires 0 <= off && n - off == 4 && BelongsInCorner(n, off, v) && v != 0
    ensures 1 <= CornerLabel(n, off, v) <= 16
    ensures BoardTile(n, off, CornerLabel(n, off, v)) == v
  {
    var hr, hc := HomeRow(n, v), HomeCol(n, v);
    QuotientBelow(v - 1, n, n);
    DivModSplit(v - 1, n);
    var i, j := hr - off, hc - off;
    assert 0 <= i < 4 && 0 <= j < 4;
    var t := CornerLabel(n, off, v);
    assert t - 1 == i * 4 + j;
    DivModOfDigit(4, i, j);
    MulMonotone(4, i, 3);
    assert BoardTile(n, off, t) == (i + off) * n + j + off + 1;
    assert (i + off) * n == hr * n == n * hr;
  }

  /** Every label of the 4x4 board names a tile that belongs in the block,
      and that tile's label is the label: the two maps are inverse. */
  lemma TileRoundTrip(n: int, off: int, t: int)
    requires 0 <= off && n - off == 4 && 1 <= t <= 16
    ensures BoardTile(n, off, t) != 0 && BelongsInCorner(n, off, BoardTile(n, off, t))
    ensures CornerLabel(n, off, BoardTile(n, off, t)) == t
  {
    var i, j := (t - 1) / 4, (t - 1) % 4;
    DivModSplit(t - 1, 4);
    QuotientBelow(t - 1, 4, 4);
    CellIndexBounds(n, i + off, j + off);
    DivModOfDigit(n, i + off, j + off);
  }

  /** The tile that belongs at block cell (r, c) is labelled with the tile
      that belongs at the same cell of the 4x4 board. */
  lemma HomeLabel(n: int, off: int, r: int, c: int)
    requires 0 <= off && n - off == 4 && off <= r < n && off <= c < n
    ensures BelongsInCorner(n, off, Home(n, r, c))
    ensures CornerLabel(n, off, Home(n, r, c)) == Home(4, r - off, c - off)
  {
    if (r, c) != (n - 1, n - 1) {
      CellIndexBounds(n, r, c);
      DivModOfDigit(n, r, c);
    }
  }

  // ---------------------------------------------------------------------
  // The block.

  /** Cell k of the 4x4 board is this cell of the larger board. */
  function CellOf(off: int, k: int): (rc: (int, int))
  {
    (off + k / 4, off + k % 4)
  }

  /** The index on the 4x4 board of block cell (r, c). */
  function BlockIndex(off: int, r: int, c: int): int
  {
    (r - off) * 4 + (c - off)
  }

  lemma BlockCell(off: int, r: int, c: int)
    requires off <= r < off + 4 && off <= c < off + 4
    ensures 0 <= BlockIndex(off, r, c) < 16 && CellOf(off, BlockIndex(off, r, c)) == (r, c)
  {
    DivModOfDigit(4, r - off, c - off);
  }

  lemma CellBlock(off: int, k: int)
    requires 0 <= k < 16
    ensures off <= CellOf(off, k).0 < off + 4 && off <= CellOf(off, k).1 < off + 4
    ensures BlockIndex(off, CellOf(off, k).0, CellOf(off, k).1) == k
  {
    QuotientBelow(k, 4, 4);
    DivModSplit(k, 4);
  }

  /** The 4x4 board `dim4_solver` reads from the block, row by row. */
  function Corner(g: Grid, n: int, off: int): (b: seq<int>)
    requires IsGrid(g, n) && 0 <= off && n - off == 4
    ensures |b| == 16
  {
    seq(16, k requires 0 <= k < 16 => (CellBlock(off, k); CornerLabel(n, off, g[off + k / 4][off + k % 4])))
  }

  /** What the corner solver is given: a permutation board with its empty
      cell inside the block and only the block's own tiles in the block. */
  ghost predicate CornerOK(g: Grid, n: int, off: int, er: int, ec: int)
  {
    0 <= off && n - off == 4 && IsGrid(g, n) && PermutationGrid(g, n, er, ec) &&
    off <= er && off <= ec &&
    forall r, c :: off <= r < n && off <= c < n ==> BelongsInCorner(n, off, g[r][c])
  }

  /** The grids agree outside the block. */
  predicate SameOutside(g: Grid, h: Grid, n: int, off: int)
    requires IsGrid(g, n) && IsGrid(h, n)
  {
    forall r, c :: 0 <= r < n && 0 <= c < n && (r < off || c < off) ==> h[r][c] == g[r][c]
  }

  /** A block cell is empty exactly when it is the empty cell. */
  lemma EmptyAt(g: Grid, n: int, off: int, er: int, ec: int, r: int, c: int)
    requires CornerOK(g, n, off, er, ec) && off <= r < n && off <= c < n
    ensures g[r][c] == 0 <==> BlockIndex(off, r, c) == BlockIndex(off, er, ec)
  {
    CellsDistinct(g, n, er, ec, r, c, er, ec);
    BlockCell(off, r, c);
    BlockCell(off, er, ec);
  }

  /** The empty cell of the block is the only cell of the 4x4 board
      labelled 0. */
  lemma CornerEmpty(g: Grid, n: int, off: int, er: int, ec: int)
    requires CornerOK(g, n, off, er, ec)
    ensures 0 <= BlockIndex(off, er, ec) < 16
    ensures forall k :: 0 <= k < 16 ==> (Corner(g, n, off)[k] == 0 <==> k == BlockIndex(off, er, ec))
  {
    BlockCell(off, er, ec);
    forall k | 0 <= k < 16
      ensures Corner(g, n, off)[k] == 0 <==> k == BlockIndex(off, er, ec)
    {
      CornerEmptyAt(g, n, off, er, ec, k);
    }
  }

  /** Cell `k` of the 4x4 board is labelled 0 exactly when it is the empty
      cell of the block. */
  lemma CornerEmptyAt(g: Grid, n: int, off: int, er: int, ec: int, k: int)
    requires CornerOK(g, n, off, er, ec) && 0 <= k < 16
    ensures Corner(g, n, off)[k] == 0 <==> k == BlockIndex(off, er, ec)
  {
    BlockCell(off, er, ec);
    CellBlock(off, k);
    var (r, c) := CellOf(off, k);
    if g[r][c] != 0 {
      LabelRoundTrip(n, off, g[r][c]);
    }
    CellsDistinct(g, n, er, ec, r, c, er, ec);
  }

  // ---------------------------------------------------------------------
  // One move.

  /** Cell (r, c) of the block is cell `BlockIndex` of the 4x4 board. */
  lemma CornerAt(g: Grid, n: int, off: int, r: int, c: int)
    requires IsGrid(g, n) && 0 <= off && n - off == 4 && off <= r < n && off <= c < n
    ensures 0 <= BlockIndex(off, r, c) < 16
    ensures Corner(g, n, off)[BlockIndex(off, r, c)] == CornerLabel(n, off, g[r][c])
  {
    BlockCell(off, r, c);
  }

  /** The block's move is the 4x4 board's move: moving the tile of block
      cell (mr, mc) into the empty cell (er, ec) moves the tile of their
      4x4 cells. */
  lemma CornerMove(g: Grid, n: int, off: int, er: int, ec: int, mr: int, mc: int)
    requires IsGrid(g, n) && 0 <= off && n - off == 4
    requires off <= er < n && off <= ec < n && off <= mr < n && off <= mc < n && g[er][ec] == 0
    ensures 0 <= BlockIndex(off, er, ec) < 16 && 0 <= BlockIndex(off, mr, mc) < 16
    ensures Corner(MoveGrid(g, n, er, ec, mr, mc), n, off) ==
      MakeMove(Corner(g, n, off), BlockIndex(off, er, ec), BlockIndex(off, mr, mc))
  {
    var h := MoveGrid(g, n, er, ec, mr, mc);
    var e, m := BlockIndex(off, er, ec), BlockIndex(off, mr, mc);
    CornerAt(g, n, off, er, ec);
    CornerAt(g, n, off, mr, mc);
    var s, t := Corner(h, n, off), MakeMove(Corner(g, n, off), e, m);
    forall k | 0 <= k < 16
      ensures s[k] == t[k]
    {
      CellBlock(off, k);
      var (r, c) := CellOf(off, k);
      CornerAt(g, n, off, r, c);
      CornerAt(h, n, off, r, c);
      assert BlockIndex(off, r, c) == k;
      assert k == e <==> (r, c) == (er, ec);
      assert k == m <==> (r, c) == (mr, mc);
    }
  }

  /** The move keeps the block's tiles in the block and leaves the rest of
      the board alone. */
  lemma CornerMoveKeeps(g: Grid, n: int, off: int, er: int, ec: int, mr: int, mc: int)
    requires IsGrid(g, n) && 0 <= off && n - off == 4
    requires off <= er < n && off <= ec < n && off <= mr < n && off <= mc < n && g[er][ec] == 0
    requires forall r, c :: off <= r < n && off <= c < n ==> BelongsInCorner(n, off, g[r][c])
    ensures var h := MoveGrid(g, n, er, ec, mr, mc);
      SameOutside(g, h, n, off) &&
      forall r, c :: off <= r < n && off <= c < n ==> BelongsInCorner(n, off, h[r][c])
  {
  }

  /** The 4x4 neighbour of the empty cell is a block cell next to it. */
  lemma NeighbourCell(off: int, er: int, ec: int, d: int)
    requires off <= er < off + 4 && off <= ec < off + 4 && 0 <= d < 4
    requires Neighbour(4, BlockIndex(off, er, ec), d) != -1
    ensures var m := Neighbour(4, BlockIndex(off, er, ec), d);
      0 <= m < 16 && off <= CellOf(off, m).0 < off + 4 && off <= CellOf(off, m).1 < off + 4 &&
      Adjacent(er, ec, CellOf(off, m).0, CellOf(off, m).1)
  {
    var i, j := er - off, ec - off;
    NeighbourIsAdjacent(4, i, j, d);
    if d == Above {
      DivModOfDigit(4, i - 1, j);
    } else if d == Right {
      DivModOfDigit(4, i, j + 1);
    } else if d == Below {
      DivModOfDigit(4, i + 1, j);
    } else {
      DivModOfDigit(4, i, j - 1);
    }
  }

  /** (r, c) is orthogonally next to (er, ec). */
  predicate Adjacent(er: int, ec: int, r: int, c: int)
  {
    (r == er - 1 && c == ec) || (r == er + 1 && c == ec) || (r == er && c == ec - 1) || (r == er && c == ec + 1)
  }

  /** On a permutation board `slide_tile` takes a tile from the one cell
      next to the empty cell that holds it. */
  lemma TileSourceUnique(g: Grid, n: int, er: int, ec: int, r: int, c: int)
    requires n >= 1 && IsGrid(g, n) && PermutationGrid(g, n, er, ec)
    requires 0 <= r < n && 0 <= c < n && Adjacent(er, ec, r, c)
    ensures TileSource(g, n, er, ec, g[r][c]) == (r, c)
  {
    if er > 0 { CellsDistinct(g, n, er, ec, er - 1, ec, r, c); }
    if er < n - 1 { CellsDistinct(g, n, er, ec, er + 1, ec, r, c); }
    if ec > 0 { CellsDistinct(g, n, er, ec, er, ec - 1, r, c); }
    if ec < n - 1 { CellsDistinct(g, n, er, ec, er, ec + 1, r, c); }
  }

  /** The tile the search slides from 4x4 cell m, named on the larger
      board, is the tile `slide_tile` finds next to the empty cell, at the
      block cell of m, and nowhere else next to it. */
  lemma TileFound(g: Grid, n: int, off: int, er: int, ec: int, d: int)
    requires CornerOK(g, n, off, er, ec) && 0 <= d < 4
    requires 0 <= BlockIndex(off, er, ec) < 16 && Neighbour(4, BlockIndex(off, er, ec), d) != -1
    ensures var m := Neighbour(4, BlockIndex(off, er, ec), d);
      0 <= m < 16 && Corner(g, n, off)[m] != 0 &&
      TileSource(g, n, er, ec, BoardTile(n, off, Corner(g, n, off)[m])) == CellOf(off, m) &&
      CellOf(off, m) != (er, ec)
  {
    var e := BlockIndex(off, er, ec);
    NeighbourCell(off, er, ec, d);
    var m := Neighbour(4, e, d);
    var (mr, mc) := CellOf(off, m);
    CellBlock(off, m);
    CornerAt(g, n, off, mr, mc);
    var v := g[mr][mc];
    CellsDistinct(g, n, er, ec, mr, mc, er, ec);
    assert v != 0;
    LabelRoundTrip(n, off, v);
    assert BoardTile(n, off, Corner(g, n, off)[m]) == v;
    TileSourceUnique(g, n, er, ec, mr, mc);
  }

  /** One mapped-back move: `slide_tile` of the tile named by the label the
      search slid from 4x4 cell m moves the empty cell to the block cell of
      m, makes the search's move on the relabelled block and keeps
      everything the corner solver is given. */
  lemma MappedMove(g: Grid, n: int, off: int, er: int, ec: int, d: int)
    requires CornerOK(g, n, off, er, ec) && 0 <= d < 4
    requires 0 <= BlockIndex(off, er, ec) < 16 && Neighbour(4, BlockIndex(off, er, ec), d) != -1
    ensures var e := BlockIndex(off, er, ec);
      var m := Neighbour(4, e, d);
      0 <= m < 16 &&
      var src := TileSource(g, n, er, ec, BoardTile(n, off, Corner(g, n, off)[m]));
      var h := MoveGrid(g, n, er, ec, src.0, src.1);
      src == CellOf(off, m) && src != (er, ec) && BlockIndex(off, src.0, src.1) == m &&
      CornerOK(h, n, off, src.0, src.1) && SameOutside(g, h, n, off) &&
      Corner(h, n, off) == MakeMove(Corner(g, n, off), e, m)
  {
    var e := BlockIndex(off, er, ec);
    TileFound(g, n, off, er, ec, d);
    var m := Neighbour(4, e, d);
    CellBlock(off, m);
    var src := CellOf(off, m);
    CornerMove(g, n, off, er, ec, src.0, src.1);
    CornerMoveKeeps(g, n, off, er, ec, src.0, src.1);
    TileSourceIsSlide(g, n, er, ec, BoardTile(n, off, Corner(g, n, off)[m]));
    SlideKeepsParity(g, n, er, ec, KeyTowards(er, ec, src.0, src.1));
  }

  /** Different tiles of the block have different labels. */
  lemma LabelInjective(n: int, off: int, v: int, w: int)
    requires 0 <= off && n - off == 4 && BelongsInCorner(n, off, v) && BelongsInCorner(n, off, w)
    ensures CornerLabel(n, off, v) == CornerLabel(n, off, w) ==> v == w
  {
    if v != 0 {
      LabelRoundTrip(n, off, v);
    }
    if w != 0 {
      LabelRoundTrip(n, off, w);
    }
  }

  /** The solved 4x4 board holds at cell (i, j) the tile that belongs
      there. */
  lemma SolvedBoardAt(i: int, j: int)
    requires 0 <= i < 4 && 0 <= j < 4
    ensures 0 <= i * 4 + j < 16 && SolvedBoard(16)[i * 4 + j] == Home(4, i, j)
  {
    CellIndexBounds(4, i, j);
    DivModOfDigit(4, i, j);
    DivModOfDigit(4, 3, 3);
  }

  /** A block holding only its own tiles is solved exactly when its 4x4
      board is the solved 4x4 board. */
  lemma CornerSolved(g: Grid, n: int, off: int)
    requires 0 <= off && n - off == 4 && IsGrid(g, n)
    requires forall r, c :: off <= r < n && off <= c < n ==> BelongsInCorner(n, off, g[r][c])
    ensures Corner(g, n, off) == SolvedBoard(16) <==>
      forall r, c :: off <= r < n && off <= c < n ==> g[r][c] == Home(n, r, c)
  {
    var b := Corner(g, n, off);
    if b == SolvedBoard(16) {
      forall r, c | off <= r < n && off <= c < n
        ensures g[r][c] == Home(n, r, c)
      {
        CornerAt(g, n, off, r, c);
        SolvedBoardAt(r - off, c - off);
        HomeLabel(n, off, r, c);
        LabelInjective(n, off, g[r][c], Home(n, r, c));
      }
    }
    if forall r, c :: off <= r < n && off <= c < n ==> g[r][c] == Home(n, r, c) {
      forall k | 0 <= k < 16
        ensures b[k] == SolvedBoard(16)[k]
      {
        CellBlock(off, k);
        var (r, c) := CellOf(off, k);
        CornerAt(g, n, off, r, c);
        SolvedBoardAt(r - off, c - off);
        HomeLabel(n, off, r, c);
      }
    }
  }

  // ---------------------------------------------------------------------
  // The solver.

  /** The read loop of `dim4_solver`: the block relabelled into `corner`,
      and the 4x4 index of the empty cell. */
  method ReadCorner(p: Puzzle, off: int, corner: array<int>) returns (emptyIndex: int)
    requires p.Valid() && CornerOK(p.Tiles(), p.dim, off, p.emptyRow, p.emptyCol) && corner.Length == 16
    modifies corner
    ensures corner[..] == Corner(p.Tiles(), p.dim, off)
    ensures emptyIndex == BlockIndex(off, p.emptyRow, p.emptyCol)
  {
    ghost var b := Corner(p.Tiles(), p.dim, off);
    ghost var e := BlockIndex(off, p.emptyRow, p.emptyCol);
    CornerEmpty(p.Tiles(), p.dim, off, p.emptyRow, p.emptyCol);
    var i := 0;
    emptyIndex := -1;
    for row := off to p.dim
      invariant i == (row - off) * 4 && corner[..i] == b[..i]
      invariant emptyIndex == if e < i then e else -1
    {
      i, emptyIndex := ReadCornerRow(p, off, corner, row, i, emptyIndex, p.Tiles(), b, e);
    }
    assert corner[..] == corner[..16];
  }

  /** One row of the read loop; g is the board. */
  method ReadCornerRow(p: Puzzle, off: int, corner: array<int>, row: int, i0: int, e0: int,
                       ghost g: Grid, ghost b: seq<int>, ghost e: int)
    returns (i: int, emptyIndex: int)
    requires p.board.Length0 == p.dim && p.board.Length1 == p.dim && g == p.Tiles()
    requires CornerOK(g, p.dim, off, p.emptyRow, p.emptyCol) && corner.Length == 16
    requires b == Corner(g, p.dim, off) && e == BlockIndex(off, p.emptyRow, p.emptyCol)
    requires off <= row < p.dim && i0 == (row - off) * 4 && corner[..i0] == b[..i0]
    requires e0 == if e < i0 then e else -1
    modifies corner
    ensures i == i0 + 4 && corner[..i] == b[..i]
    ensures emptyIndex == if e < i then e else -1
  {
    i, emptyIndex := i0, e0;
    for col := off to p.dim
      invariant i == i0 + (col - off) && corner[..i] == b[..i]
      invariant emptyIndex == if e < i then e else -1
    {
      BlockCell(off, row, col);
      CornerAt(g, p.dim, off, row, col);
      EmptyAt(g, p.dim, off, p.emptyRow, p.emptyCol, row, col);
      assert BlockIndex(off, row, col) == i && g[row][col] == p.board[row, col];
      var value := ReadCell(p, off, row, col);
      if p.board[row, col] == 0 {
        emptyIndex := i;
      }
      corner[i] := value;
      assert corner[..i + 1] == corner[..i] + [b[i]];
      i := i + 1;
    }
  }

  /** The label the read loop writes for cell (row, col): 0 for the empty
      cell, otherwise the tile's home cell in the block plus one. */
  method ReadCell(p: Puzzle, off: int, row: int, col: int) returns (value: int)
    requires p.board.Length0 == p.dim && p.board.Length1 == p.dim && 0 <= off <= row < p.dim && off <= col < p.dim
    ensures value == CornerLabel(p.dim, off, p.board[row, col])
  {
    if p.board[row, col] == 0 {
      value := 0;
    } else {
      var pos := p.board[row, col] - 1;
      var adjustedRow := pos / p.dim - off;
      var adjustedCol := pos % p.dim - off;
      value := adjustedRow * 4 + adjustedCol + 1;
    }
  }

  /** `dim4_solver`: relabel the lower-right block as a 4x4 puzzle, run
      IDA* rounds on it, and when one succeeds make its moves on the board
      with `slide_tile`, each label mapped back to its tile. On success the
      block has been moved along the search's goal walk (shortest when the
      table is admissible), one counted move per step, and its board has
      heuristic 0 (`est` is the heuristic the table gives every 4x4 board);
      the rest of the board is untouched. When the search gives up nothing
      has moved and, with an admissible table, the block has no goal walk
      of 80 moves or fewer. */
  method SolveCorner(p: Puzzle, off: int, table: array<Byte>, reflectedTiles: seq<seq<int>>, ghost est: seq<int> -> nat)
    returns (ok: bool, ghost dirs: seq<int>)
    requires p.Valid() && CornerOK(p.Tiles(), p.dim, off, p.emptyRow, p.emptyCol)
    requires ReadsTable(est, table[..], reflectedTiles)
    modifies p, p.board
    ensures p.Valid() && CornerOK(p.Tiles(), p.dim, off, p.emptyRow, p.emptyCol)
    ensures SameOutside(old(p.Tiles()), p.Tiles(), p.dim, off)
    ensures ok ==>
      var b0, e0 := Corner(old(p.Tiles()), p.dim, off), BlockIndex(off, old(p.emptyRow), old(p.emptyCol));
      0 <= e0 < 16 && GoalWalk(est, b0, e0, NoMove, dirs) &&
      Corner(p.Tiles(), p.dim, off) == Slide(b0, e0, dirs).board &&
      est(Corner(p.Tiles(), p.dim, off)) == 0 &&
      p.moveNumber == old(p.moveNumber) + |dirs| &&
      (Admissible(est) ==> Shortest(est, b0, e0, |dirs|))
    ensures !ok ==>
      p.Tiles() == old(p.Tiles()) && p.moveNumber == old(p.moveNumber) &&
      p.emptyRow == old(p.emptyRow) && p.emptyCol == old(p.emptyCol)
    ensures !ok && Admissible(est) ==>
      var b0, e0 := Corner(old(p.Tiles()), p.dim, off), BlockIndex(off, old(p.emptyRow), old(p.emptyCol));
      0 <= e0 < 16 && Shortest(est, b0, e0, 81)
  {
    ghost var g0 := p.Tiles();
    var corner := new int[16];
    var e := ReadCorner(p, off, corner);
    CornerEmpty(g0, p.dim, off, p.emptyRow, p.emptyCol);
    var found, root;
    found, root, dirs := SearchCorner(corner, e, table, reflectedTiles, est);
    if !found {
      return false, dirs;
    }
    assert corner[..] == Corner(g0, p.dim, off);
    MapBack(p, off, root, corner[..], e, dirs);
    ok := true;
  }

  /** The root node of the 4x4 board read from the block, and the rounds of
      IDA* from it. */
  method SearchCorner(corner: array<int>, e: int, table: array<Byte>, reflectedTiles: seq<seq<int>>, ghost est: seq<int> -> nat)
    returns (found: bool, root: SearchNode, ghost dirs: seq<int>)
    requires corner.Length == 16 && 0 <= e < 16 && forall k :: 0 <= k < 16 ==> (corner[k] == 0 <==> k == e)
    requires ReadsTable(est, table[..], reflectedTiles)
    ensures found ==>
      GoalWalk(est, corner[..], e, NoMove, dirs) &&
      0 <= root.numMoves <= root.moves.Length &&
      Slide(corner[..], e, dirs) == Slid(root.board[..], root.emptyIndex, root.moves[..root.numMoves]) &&
      (Admissible(est) ==> Shortest(est, corner[..], e, |dirs|))
    ensures !found && Admissible(est) ==> Shortest(est, corner[..], e, 81)
  {
    assert corner[e] == 0;
    root := new SearchNode(corner, table, reflectedTiles);
    assert root.emptyIndex == e;
    ghost var b0 := root.board[..];
    assert b0 == corner[..];
    found, dirs := IdaStar(root, table, reflectedTiles, est);
    assert corner[..] == b0;
  }

  /** The move loop of `dim4_solver`: each label of the root's moves mapped
      back to its tile and slid. */
  method MapBack(p: Puzzle, off: int, root: SearchNode, ghost b0: seq<int>, ghost e0: int, ghost dirs: seq<int>)
    requires p.Valid() && CornerOK(p.Tiles(), p.dim, off, p.emptyRow, p.emptyCol)
    requires b0 == Corner(p.Tiles(), p.dim, off) && e0 == BlockIndex(off, p.emptyRow, p.emptyCol)
    requires 0 <= e0 < 16 && Legal(e0, dirs)
    requires 0 <= root.numMoves <= root.moves.Length
    requires Slide(b0, e0, dirs) == Slid(root.board[..], root.emptyIndex, root.moves[..root.numMoves])
    modifies p, p.board
    ensures p.Valid() && CornerOK(p.Tiles(), p.dim, off, p.emptyRow, p.emptyCol)
    ensures SameOutside(old(p.Tiles()), p.Tiles(), p.dim, off)
    ensures Corner(p.Tiles(), p.dim, off) == root.board[..]
    ensures p.moveNumber == old(p.moveNumber) + |dirs|
  {
    ghost var g0 := p.Tiles();
    ghost var tiles := root.moves[..root.numMoves];
    ghost var cb, ce, rest := b0, e0, dirs;
    var i := 0;
    while i < root.numMoves
      invariant 0 <= i <= root.numMoves
      invariant 0 <= ce < 16 && |cb| == 16 && Legal(ce, rest)
      invariant Slide(cb, ce, rest) == Slid(root.board[..], root.emptyIndex, tiles[i..])
      invariant p.Valid() && CornerOK(p.Tiles(), p.dim, off, p.emptyRow, p.emptyCol)
      invariant Corner(p.Tiles(), p.dim, off) == cb && BlockIndex(off, p.emptyRow, p.emptyCol) == ce
      invariant SameOutside(g0, p.Tiles(), p.dim, off)
      invariant p.moveNumber == old(p.moveNumber) + i && i + |rest| == |dirs|
    {
      ghost var d := rest[0];
      NeighbourRange(ce, d);
      ghost var m := Neighbour(4, ce, d);
      assert tiles[i] == cb[m] && root.moves[i] == tiles[i];
      MoveMapped(p, off, root.moves[i], cb, d);
      cb, ce, rest := MakeMove(cb, ce, m), m, rest[1..];
      assert tiles[i + 1..] == tiles[i..][1..];
      i := i + 1;
    }
    assert |tiles[i..]| == 0;
  }

  /** One pass of the move loop: the label t, which the search slid from
      the 4x4 neighbour of the empty cell in direction d, mapped back to its
      tile and slid with `slide_tile`. The block makes the search's move. */
  method MoveMapped(p: Puzzle, off: int, t: int, ghost cb: seq<int>, ghost d: int)
    requires p.Valid() && CornerOK(p.Tiles(), p.dim, off, p.emptyRow, p.emptyCol)
    requires cb == Corner(p.Tiles(), p.dim, off) && 0 <= d < 4
    requires 0 <= BlockIndex(off, p.emptyRow, p.emptyCol) < 16
    requires Neighbour(4, BlockIndex(off, p.emptyRow, p.emptyCol), d) != -1
    requires t == cb[Neighbour(4, BlockIndex(off, p.emptyRow, p.emptyCol), d)]
    modifies p, p.board
    ensures p.Valid() && CornerOK(p.Tiles(), p.dim, off, p.emptyRow, p.emptyCol)
    ensures var e := BlockIndex(off, old(p.emptyRow), old(p.emptyCol));
      var m := Neighbour(4, e, d);
      Corner(p.Tiles(), p.dim, off) == MakeMove(cb, e, m) && BlockIndex(off, p.emptyRow, p.emptyCol) == m
    ensures SameOutside(old(p.Tiles()), p.Tiles(), p.dim, off)
    ensures p.moveNumber == old(p.moveNumber) + 1
  {
    ghost var g, er, ec := p.Tiles(), p.emptyRow, p.emptyCol;
    ghost var m := Neighbour(4, BlockIndex(off, er, ec), d);
    MappedMove(g, p.dim, off, er, ec, d);
    ghost var src := TileSource(g, p.dim, er, ec, BoardTile(p.dim, off, t));
    assert src == CellOf(off, m) && src != (er, ec);
    var tile := BoardTile(p.dim, off, t);
    p.SlideTile(tile);
    assert (p.emptyRow, p.emptyCol) == src;
    assert p.Tiles() == MoveGrid(g, p.dim, er, ec, src.0, src.1);
  }
}
