/** The arranging routines of the general ("human") solver: `arrange_row`
    places the tiles of row `offset` and `arrange_column` those of column
    `offset`, once every row and column before `offset` is in place. Each
    tile is carried to its cell by the positioning routines; the last tile
    of a row or column needs a manoeuvre that shifts the placed tiles along
    by one cell and back. The contracts state that the arranged region
    grows by one row or column and that the board stays a solvable
    permutation. */
module GeneralSolver {
  import opened Common
  import opened Solvability
  import opened Game
  import opened GeneralMoves

  // ---------------------------------------------------------------------
  // Arranged regions.

  /** Every cell `w` guards holds the tile that belongs there. */
  ghost predicate Arranged(g: Grid, n: int, w: Guard)
    requires IsGrid(g, n)
  {
    forall r, c :: 0 <= r < n && 0 <= c < n && Guarded(w, r, c) ==> g[r][c] == Home(n, r, c)
  }

  /** Different cells have different home tiles. */
  lemma HomeInjective(n: int, r1: int, c1: int, r2: int, c2: int)
    requires n >= 1 && 0 <= r1 < n && 0 <= c1 < n && 0 <= r2 < n && 0 <= c2 < n
    requires Home(n, r1, c1) == Home(n, r2, c2)
    ensures r1 == r2 && c1 == c2
  {
    if (r1, c1) != (n - 1, n - 1) && (r2, c2) != (n - 1, n - 1) {
      DivModOfDigit(n, r1, c1);
      DivModOfDigit(n, r2, c2);
    }
  }

  /** The home tile of any cell but the lower-right one is a label between
      1 and n * n - 1. */
  lemma HomeRange(n: int, r: int, c: int)
    requires n >= 1 && 0 <= r < n && 0 <= c < n && (r, c) != (n - 1, n - 1)
    ensures 1 <= Home(n, r, c) < n * n
  {
    assert r * n >= 0;
    if r < n - 1 {
      MulMonotone(n, r, n - 2);
      assert r * n <= n * n - 2 * n;
    } else {
      assert r * n == n * n - n;
    }
  }

  /** The cells a guard keeps arranged stay arranged while the guard's
      cells keep their tiles. */
  lemma ArrangedKept(ref: Grid, g: Grid, n: int, w: Guard)
    requires IsGrid(ref, n) && IsGrid(g, n) && Arranged(ref, n, w) && Keeps(ref, g, n, w)
    ensures Arranged(g, n, w)
  {
  }

  /** On a permutation board whose guarded cells are arranged, the home tile
      of an open cell lies in an open cell. */
  lemma FindOpen(g: Grid, n: int, er: int, ec: int, w: Guard, r0: int, c0: int) returns (r: int, c: int)
    requires n >= 1 && IsGrid(g, n) && PermutationGrid(g, n, er, ec) && Arranged(g, n, w)
    requires Open(w, n, r0, c0) && (r0, c0) != (n - 1, n - 1)
    ensures Open(w, n, r, c) && g[r][c] == Home(n, r0, c0)
  {
    var v := Home(n, r0, c0);
    HomeRange(n, r0, c0);
    TileOnBoard(g, n, er, ec, v);
    r, c :| 0 <= r < n && 0 <= c < n && g[r][c] == v;
    if Guarded(w, r, c) {
      HomeInjective(n, r, c, r0, c0);
    }
  }

  /** On such a board the empty cell is open, as long as the guard does not
      reach the lower-right cell. */
  lemma EmptyOpen(g: Grid, n: int, er: int, ec: int, w: Guard)
    requires n >= 1 && IsGrid(g, n) && PermutationGrid(g, n, er, ec) && Arranged(g, n, w)
    requires !Guarded(w, n - 1, n - 1)
    ensures Open(w, n, er, ec)
  {
    if Guarded(w, er, ec) {
      HomeInjective(n, er, ec, n - 1, n - 1);
    }
  }

  // ---------------------------------------------------------------------
  // Runs of slides in one direction.

  /** The cell whose tile ends at cell i of a line once the empty cell has
      run along it from a to b: each tile it passed has moved one cell back
      towards a. */
  function RunSource(n: int, a: int, b: int, i: int): (j: int)
    requires 0 <= a < n && 0 <= b < n && 0 <= i < n
    ensures 0 <= j < n
    ensures Between(i, a, b) && i != b ==> j == (if a <= b then i + 1 else i - 1)
    ensures !Between(i, a, b) ==> j == i
  {
    if a <= i < b then i + 1 else if b < i <= a then i - 1 else i
  }

  /** The board once the empty cell of g, at (r, a), has moved along row r
      to column b. */
  ghost function SlidRow(g: Grid, n: int, r: int, a: int, b: int): (h: Grid)
    requires IsGrid(g, n) && 0 <= r < n && 0 <= a < n && 0 <= b < n
    ensures IsGrid(h, n)
  {
    seq(n, i requires 0 <= i < n =>
      seq(n, k requires 0 <= k < n =>
        if i == r && k == b then 0
        else if i == r then g[r][RunSource(n, a, b, k)]
        else g[i][k]))
  }

  /** The same along column c, from row a to row b. */
  ghost function SlidColumn(g: Grid, n: int, c: int, a: int, b: int): (h: Grid)
    requires IsGrid(g, n) && 0 <= c < n && 0 <= a < n && 0 <= b < n
    ensures IsGrid(h, n)
  {
    seq(n, i requires 0 <= i < n =>
      g[i][c := if i == b then 0 else g[RunSource(n, a, b, i)][c]])
  }

  /** A run that has not started changes nothing. */
  lemma SlidRowStart(g: Grid, n: int, r: int, a: int)
    requires IsGrid(g, n) && 0 <= r < n && 0 <= a < n && g[r][a] == 0
    ensures SlidRow(g, n, r, a, a) == g
  {
    GridEquality(SlidRow(g, n, r, a, a), g, n);
  }

  lemma SlidColumnStart(g: Grid, n: int, c: int, a: int)
    requires IsGrid(g, n) && 0 <= c < n && 0 <= a < n && g[a][c] == 0
    ensures SlidColumn(g, n, c, a, a) == g
  {
    GridEquality(SlidColumn(g, n, c, a, a), g, n);
  }

  /** One more slide in the run's direction extends the run by a cell. */
  lemma SlidRowStep(g: Grid, n: int, r: int, a: int, b: int, b': int)
    requires IsGrid(g, n) && 0 <= r < n && 0 <= a < n && 0 <= b < n && 0 <= b' < n
    requires (a <= b && b' == b + 1) || (b <= a && b' == b - 1)
    ensures MoveGrid(SlidRow(g, n, r, a, b), n, r, b, r, b') == SlidRow(g, n, r, a, b')
  {
    GridEquality(MoveGrid(SlidRow(g, n, r, a, b), n, r, b, r, b'), SlidRow(g, n, r, a, b'), n);
  }

  lemma SlidColumnStep(g: Grid, n: int, c: int, a: int, b: int, b': int)
    requires IsGrid(g, n) && 0 <= c < n && 0 <= a < n && 0 <= b < n && 0 <= b' < n
    requires (a <= b && b' == b + 1) || (b <= a && b' == b - 1)
    ensures MoveGrid(SlidColumn(g, n, c, a, b), n, b, c, b', c) == SlidColumn(g, n, c, a, b')
  {
    GridEquality(MoveGrid(SlidColumn(g, n, c, a, b), n, b, c, b', c), SlidColumn(g, n, c, a, b'), n);
  }

  /** `while (p.empty_col != stop) slide(key)`, with 'l' when the stop is
      to the right and 'r' when it is to the left (no slide at all when the
      empty cell is already there): the empty cell runs along its row to
      column `stop`. */
  method SlideAlongRow(p: Puzzle, key: char, stop: int)
    requires Sound(p) && 0 <= stop < p.dim
    requires stop == p.emptyCol || key == if stop > p.emptyCol then 'l' else 'r'
    modifies p, p.board
    ensures Sound(p) && Even(p) == old(Even(p)) && p.moveNumber >= old(p.moveNumber)
    ensures p.emptyRow == old(p.emptyRow) && p.emptyCol == stop
    ensures p.Tiles() == SlidRow(old(p.Tiles()), p.dim, p.emptyRow, old(p.emptyCol), stop)
  {
    ghost var g, a := p.Tiles(), p.emptyCol;
    SlidRowStart(g, p.dim, p.emptyRow, a);
    while p.emptyCol != stop
      invariant Sound(p) && Even(p) == old(Even(p)) && p.moveNumber >= old(p.moveNumber)
      invariant p.emptyRow == old(p.emptyRow) && Between(p.emptyCol, a, stop)
      invariant p.Tiles() == SlidRow(g, p.dim, p.emptyRow, a, p.emptyCol)
      decreases if stop >= p.emptyCol then stop - p.emptyCol else p.emptyCol - stop
    {
      RowRunStep(p, key, g, a, stop);
    }
  }

  /** One slide of a run along a row. */
  method RowRunStep(p: Puzzle, key: char, ghost g: Grid, ghost a: int, ghost stop: int)
    requires Sound(p) && IsGrid(g, p.dim) && 0 <= a < p.dim && 0 <= stop < p.dim
    requires Between(p.emptyCol, a, stop) && p.emptyCol != stop
    requires key == if stop >= a then 'l' else 'r'
    requires p.Tiles() == SlidRow(g, p.dim, p.emptyRow, a, p.emptyCol)
    modifies p, p.board
    ensures Sound(p) && Even(p) == old(Even(p)) && p.moveNumber >= old(p.moveNumber)
    ensures p.emptyRow == old(p.emptyRow)
    ensures p.emptyCol == if stop >= a then old(p.emptyCol) + 1 else old(p.emptyCol) - 1
    ensures p.Tiles() == SlidRow(g, p.dim, p.emptyRow, a, p.emptyCol)
  {
    ghost var r, b, g0 := p.emptyRow, p.emptyCol, p.Tiles();
    ghost var b' := if stop >= a then b + 1 else b - 1;
    assert Step(p.dim, r, b, key) == (r, b');
    SlideKeepsParity(g0, p.dim, r, b, key);
    p.Slide(key);
    SlidRowStep(g, p.dim, r, a, b, b');
  }

  /** `while (p.empty_row != stop) slide(key)`, with 'u' when the stop is
      below and 'd' when it is above (no slide at all when the empty cell
      is already there): the empty cell runs along its column to row
      `stop`. */
  method SlideAlongColumn(p: Puzzle, key: char, stop: int)
    requires Sound(p) && 0 <= stop < p.dim
    requires stop == p.emptyRow || key == if stop > p.emptyRow then 'u' else 'd'
    modifies p, p.board
    ensures Sound(p) && Even(p) == old(Even(p)) && p.moveNumber >= old(p.moveNumber)
    ensures p.emptyCol == old(p.emptyCol) && p.emptyRow == stop
    ensures p.Tiles() == SlidColumn(old(p.Tiles()), p.dim, p.emptyCol, old(p.emptyRow), stop)
  {
    ghost var g, a := p.Tiles(), p.emptyRow;
    SlidColumnStart(g, p.dim, p.emptyCol, a);
    while p.emptyRow != stop
      invariant Sound(p) && Even(p) == old(Even(p)) && p.moveNumber >= old(p.moveNumber)
      invariant p.emptyCol == old(p.emptyCol) && Between(p.emptyRow, a, stop)
      invariant p.Tiles() == SlidColumn(g, p.dim, p.emptyCol, a, p.emptyRow)
      decreases if stop >= p.emptyRow then stop - p.emptyRow else p.emptyRow - stop
    {
      ColumnRunStep(p, key, g, a, stop);
    }
  }

  /** One slide of a run along a column. */
  method ColumnRunStep(p: Puzzle, key: char, ghost g: Grid, ghost a: int, ghost stop: int)
    requires Sound(p) && IsGrid(g, p.dim) && 0 <= a < p.dim && 0 <= stop < p.dim
    requires Between(p.emptyRow, a, stop) && p.emptyRow != stop
    requires key == if stop >= a then 'u' else 'd'
    requires p.Tiles() == SlidColumn(g, p.dim, p.emptyCol, a, p.emptyRow)
    modifies p, p.board
    ensures Sound(p) && Even(p) == old(Even(p)) && p.moveNumber >= old(p.moveNumber)
    ensures p.emptyCol == old(p.emptyCol)
    ensures p.emptyRow == if stop >= a then old(p.emptyRow) + 1 else old(p.emptyRow) - 1
    ensures p.Tiles() == SlidColumn(g, p.dim, p.emptyCol, a, p.emptyRow)
  {
    ghost var b, c, g0 := p.emptyRow, p.emptyCol, p.Tiles();
    ghost var b' := if stop >= a then b + 1 else b - 1;
    assert Step(p.dim, b, c, key) == (b', c);
    SlideKeepsParity(g0, p.dim, b, c, key);
    p.Slide(key);
    SlidColumnStep(g, p.dim, c, a, b, b');
  }

  /** A run through open cells keeps every guarded cell. */
  lemma SlidRowKeeps(ref: Grid, g: Grid, n: int, r: int, a: int, b: int, w: Guard)
    requires IsGrid(ref, n) && IsGrid(g, n) && Keeps(ref, g, n, w)
    requires 0 <= r < n && 0 <= a < n && 0 <= b < n
    requires forall k :: Between(k, a, b) ==> Open(w, n, r, k)
    ensures Keeps(ref, SlidRow(g, n, r, a, b), n, w)
  {
    var h := SlidRow(g, n, r, a, b);
    forall i, k | 0 <= i < n && 0 <= k < n && Guarded(w, i, k)
      ensures h[i][k] == ref[i][k]
    {
      if i == r {
        assert !Between(k, a, b);
      }
    }
  }

  lemma SlidColumnKeeps(ref: Grid, g: Grid, n: int, c: int, a: int, b: int, w: Guard)
    requires IsGrid(ref, n) && IsGrid(g, n) && Keeps(ref, g, n, w)
    requires 0 <= c < n && 0 <= a < n && 0 <= b < n
    requires forall k :: Between(k, a, b) ==> Open(w, n, k, c)
    ensures Keeps(ref, SlidColumn(g, n, c, a, b), n, w)
  {
    var h := SlidColumn(g, n, c, a, b);
    forall i, k | 0 <= i < n && 0 <= k < n && Guarded(w, i, k)
      ensures h[i][k] == ref[i][k]
    {
      if k == c {
        assert !Between(i, a, b);
      }
    }
  }

  /** A run along a column leaves the other columns alone. */
  lemma SlidColumnOff(g: Grid, n: int, c: int, a: int, b: int, r: int, k: int)
    requires IsGrid(g, n) && 0 <= c < n && 0 <= a < n && 0 <= b < n
    requires 0 <= r < n && 0 <= k < n && k != c
    ensures SlidColumn(g, n, c, a, b)[r][k] == g[r][k]
  {
  }

  // ---------------------------------------------------------------------
  // arrange_row: the tiles before the last one.

  /** The guard while the tile for column j - 1 of row `offset` is placed:
      every row above `offset`, every column left of `offset` and the
      cells of row `offset` placed so far. */
  function RowGuard(offset: int, j: int): Guard
  {
    Guard(offset, offset, offset, j - 1, 0, 0)
  }

  /** With the empty cell off row `offset` (or nothing of the row placed
      yet) every cell `move_target_to_col` visits to bring a tile to column
      j - 1 is open. */
  lemma ColPlanForRow(n: int, offset: int, j: int, er: int, ec: int, tr: int, tc: int)
    requires 0 <= offset && offset + 3 <= n && offset + 1 <= j < n
    requires Open(RowGuard(offset, j), n, er, ec) && Open(RowGuard(offset, j), n, tr, tc)
    requires (er, ec) != (tr, tc)
    requires j > offset + 1 ==> er > offset
    ensures ColPlanOpen(RowGuard(offset, j), n, er, ec, tr, tc, j - 1)
  {
    var w := RowGuard(offset, j);
    var fr, fc := Clamp(er, tr - 1, tr + 1), Clamp(ec, tc - 1, tc + 1);
    forall c | Between(c, ec, fc)
      ensures Open(w, n, er, c)
    {
    }
    forall r | Between(r, er, fr)
      ensures Open(w, n, r, fc)
    {
    }
    assert PathOpen(w, n, er, ec, tr, tc);
    assert BelowOpen(w, n, fr, fc, tr, tc);
    var r := BelowRow(n, tr);
    forall c | Between(c, tc, j - 1)
      ensures Open(w, n, r, c) && Open(w, n, r + 1, c)
    {
    }
  }

  /** Likewise every cell `move_target_to_row` visits to lift a tile from
      row R of column j - 1 to row `offset` is open. */
  lemma RowPlanForRow(n: int, offset: int, j: int, er: int, ec: int, tr: int)
    requires 0 <= offset && offset + 3 <= n && offset + 1 <= j < n
    requires Open(RowGuard(offset, j), n, er, ec) && offset < tr < n
    requires (er, ec) != (tr, j - 1)
    requires j > offset + 1 ==> er > offset
    ensures RowPlanOpen(RowGuard(offset, j), n, er, ec, tr, j - 1, offset)
  {
    var w, tc := RowGuard(offset, j), j - 1;
    var fr, fc := Clamp(er, tr - 1, tr + 1), Clamp(ec, tc - 1, tc + 1);
    forall c | Between(c, ec, fc)
      ensures Open(w, n, er, c)
    {
    }
    forall r | Between(r, er, fr)
      ensures Open(w, n, r, fc)
    {
    }
    assert PathOpen(w, n, er, ec, tr, tc);
    assert RightOpen(w, n, fr, fc, tr, tc);
    var c := RightCol(n, tc);
    forall r | Between(r, tr, offset)
      ensures Open(w, n, r, c) && Open(w, n, r, c + 1)
    {
    }
  }

  /** Once the tile is in row `offset` next to the placed ones, the row is
      arranged one cell further. */
  lemma ArrangedExtend(g: Grid, n: int, offset: int, j: int)
    requires IsGrid(g, n) && 0 <= offset && offset + 1 <= j <= n
    requires Arranged(g, n, RowGuard(offset, j)) && g[offset][j - 1] == Home(n, offset, j - 1)
    ensures Arranged(g, n, RowGuard(offset, j + 1))
  {
  }

  /** One pass of the first loop of `arrange_row`: tile j + dim * offset,
      which belongs in column j - 1, is carried to that column and then up
      to row `offset`; if the empty cell is left on that row it steps down
      a row. */
  method PlaceRowTile(p: Puzzle, offset: int, j: int)
    requires Sound(p) && 0 <= offset && offset + 3 <= p.dim && offset + 1 <= j < p.dim
    requires Arranged(p.Tiles(), p.dim, RowGuard(offset, j))
    requires j > offset + 1 ==> p.emptyRow > offset
    modifies p, p.board
    ensures Sound(p) && Even(p) == old(Even(p)) && p.moveNumber >= old(p.moveNumber)
    ensures Arranged(p.Tiles(), p.dim, RowGuard(offset, j + 1)) && p.emptyRow > offset
  {
    var targetTile := j + p.dim * offset;
    ghost var r := RowTileToColumn(p, offset, j, targetTile);
    RowTileToRow(p, offset, j, targetTile, r);
  }

  /** The first half of a pass of `arrange_row`'s first loop:
      `move_target_to_col` brings the tile to column j - 1, in row r. */
  method RowTileToColumn(p: Puzzle, offset: int, j: int, targetTile: int) returns (ghost r: int)
    requires Sound(p) && 0 <= offset && offset + 3 <= p.dim && offset + 1 <= j < p.dim
    requires Arranged(p.Tiles(), p.dim, RowGuard(offset, j))
    requires j > offset + 1 ==> p.emptyRow > offset
    requires targetTile == j + p.dim * offset
    modifies p, p.board
    ensures Sound(p) && Even(p) == old(Even(p)) && p.moveNumber >= old(p.moveNumber)
    ensures Arranged(p.Tiles(), p.dim, RowGuard(offset, j))
    ensures offset <= r < p.dim && p.Tiles()[r][j - 1] == targetTile
    ensures r != offset && j > offset + 1 ==> p.emptyRow > offset
  {
    ghost var n, w, ref := p.dim, RowGuard(offset, j), p.Tiles();
    assert targetTile == Home(n, offset, j - 1);
    HomeRange(n, offset, j - 1);
    ghost var tr, tc := FindOpen(ref, n, p.emptyRow, p.emptyCol, w, offset, j - 1);
    EmptyOpen(ref, n, p.emptyRow, p.emptyCol, w);
    ColPlanForRow(n, offset, j, p.emptyRow, p.emptyCol, tr, tc);
    MoveTargetToCol(p, targetTile, j - 1, w, ref, tr, tc);
    ArrangedKept(ref, p.Tiles(), n, w);
    if tc == j - 1 {
      r := tr;
    } else {
      r := BelowRow(n, tr);
      assert p.Tiles()[r][j - 1] == targetTile && p.emptyRow == r;
    }
  }

  /** The second half: `move_target_to_row` lifts the tile from row r to
      row `offset`, and a last slide takes the empty cell off that row. */
  method RowTileToRow(p: Puzzle, offset: int, j: int, targetTile: int, ghost r: int)
    requires Sound(p) && 0 <= offset && offset + 3 <= p.dim && offset + 1 <= j < p.dim
    requires Arranged(p.Tiles(), p.dim, RowGuard(offset, j))
    requires targetTile == j + p.dim * offset
    requires offset <= r < p.dim && p.Tiles()[r][j - 1] == targetTile
    requires r != offset && j > offset + 1 ==> p.emptyRow > offset
    modifies p, p.board
    ensures Sound(p) && Even(p) == old(Even(p)) && p.moveNumber >= old(p.moveNumber)
    ensures Arranged(p.Tiles(), p.dim, RowGuard(offset, j + 1)) && p.emptyRow > offset
  {
    ghost var n, w, ref := p.dim, RowGuard(offset, j), p.Tiles();
    assert targetTile == Home(n, offset, j - 1);
    HomeRange(n, offset, j - 1);
    EmptyOpen(ref, n, p.emptyRow, p.emptyCol, w);
    if r != offset {
      RowPlanForRow(n, offset, j, p.emptyRow, p.emptyCol, r);
    }
    MoveTargetToRow(p, targetTile, offset, w, ref, r, j - 1);
    assert p.Tiles()[offset][j - 1] == targetTile;
    ArrangedKept(ref, p.Tiles(), n, w);
    EmptyOpen(p.Tiles(), n, p.emptyRow, p.emptyCol, w);
    ArrangedExtend(p.Tiles(), n, offset, j);
    if p.emptyRow == offset {
      ghost var w', ref' := RowGuard(offset, j + 1), p.Tiles();
      ghost var r', c' := Push(p, 'u', w', ref', offset, j - 1, targetTile);
      ArrangedKept(ref', p.Tiles(), n, w');
    }
  }

  // ---------------------------------------------------------------------
  // arrange_row: the last tile.

  /** The guard while the last tile of row `offset` is brought below its
      cell: the rows above, the columns to the left, and the placed tiles
      of the row, now one column right of their cells. */
  function ShiftGuard(n: int, offset: int): Guard
  {
    Guard(offset, offset, offset + 1, n, 0, 0)
  }

  /** Rows above `offset` and columns left of it are arranged, and the
      placed tiles of row `offset` sit one column right of their cells. */
  ghost predicate ShiftedRow(g: Grid, n: int, offset: int)
    requires IsGrid(g, n)
  {
    0 <= offset < n && Arranged(g, n, Guard(offset, offset, 0, 0, 0, 0)) &&
    forall c :: offset + 1 <= c < n ==> g[offset][c] == Home(n, offset, c - 1)
  }

  lemma ShiftedKept(ref: Grid, g: Grid, n: int, offset: int)
    requires IsGrid(ref, n) && IsGrid(g, n) && ShiftedRow(ref, n, offset)
    requires Keeps(ref, g, n, ShiftGuard(n, offset))
    ensures ShiftedRow(g, n, offset)
  {
  }

  /** With the row shifted, the empty cell is open. */
  lemma ShiftedEmptyOpen(g: Grid, n: int, er: int, ec: int, offset: int)
    requires n >= 1 && IsGrid(g, n) && PermutationGrid(g, n, er, ec)
    requires 0 <= offset < n && ShiftedRow(g, n, offset)
    ensures Open(ShiftGuard(n, offset), n, er, ec)
  {
    if Guarded(ShiftGuard(n, offset), er, ec) {
      if er < offset || ec < offset {
        HomeRange(n, er, ec);
      } else {
        HomeRange(n, offset, ec - 1);
      }
    }
  }

  /** Once the row is complete, row `offset` joins the arranged rows. */
  lemma RowComplete(g: Grid, n: int, offset: int)
    requires IsGrid(g, n) && 0 <= offset < n && Arranged(g, n, RowGuard(offset, n + 1))
    ensures Arranged(g, n, Guard(offset + 1, offset, 0, 0, 0, 0))
  {
  }

  /** The placed tiles of row `offset` once the empty cell, at the end of
      the row, has run left to column b: those it passed are one column
      right of their cells, the others are where they were. */
  lemma ShiftRowTiles(g: Grid, h: Grid, n: int, offset: int, b: int)
    requires IsGrid(g, n) && 0 <= offset <= b < n && Arranged(g, n, RowGuard(offset, n))
    requires h == SlidRow(g, n, offset, n - 1, b)
    ensures Arranged(h, n, Guard(offset, offset, 0, 0, 0, 0))
    ensures forall c :: b < c < n ==> h[offset][c] == Home(n, offset, c - 1)
    ensures forall c :: offset <= c < b ==> h[offset][c] == Home(n, offset, c)
  {
    forall c | b < c < n
      ensures h[offset][c] == Home(n, offset, c - 1)
    {
      assert h[offset][c] == g[offset][c - 1];
    }
  }

  /** The first two loops of the last-tile manoeuvre: the empty cell goes
      right to the last column, then up to row `offset`. */
  method EmptyToRowEnd(p: Puzzle, offset: int)
    requires Sound(p) && 0 <= offset && offset + 3 <= p.dim
    requires Arranged(p.Tiles(), p.dim, RowGuard(offset, p.dim)) && p.emptyRow > offset
    modifies p, p.board
    ensures Sound(p) && Even(p) == old(Even(p)) && p.moveNumber >= old(p.moveNumber)
    ensures Arranged(p.Tiles(), p.dim, RowGuard(offset, p.dim))
    ensures p.emptyRow == offset && p.emptyCol == p.dim - 1
  {
    EmptyToLastColumn(p, offset);
    EmptyUpLastColumn(p, offset);
  }

  /** `while (p.empty_col != p.dim - 1) slide('l')`, below row `offset`. */
  method EmptyToLastColumn(p: Puzzle, offset: int)
    requires Sound(p) && 0 <= offset && offset + 3 <= p.dim
    requires Arranged(p.Tiles(), p.dim, RowGuard(offset, p.dim)) && p.emptyRow > offset
    modifies p, p.board
    ensures Sound(p) && Even(p) == old(Even(p)) && p.moveNumber >= old(p.moveNumber)
    ensures Arranged(p.Tiles(), p.dim, RowGuard(offset, p.dim))
    ensures p.emptyRow == old(p.emptyRow) && p.emptyCol == p.dim - 1
  {
    ghost var n, w, g0 := p.dim, RowGuard(offset, p.dim), p.Tiles();
    EmptyOpen(g0, n, p.emptyRow, p.emptyCol, w);
    ghost var er, ec := p.emptyRow, p.emptyCol;
    SlideAlongRow(p, 'l', p.dim - 1);
    SlidRowKeeps(g0, g0, n, er, ec, n - 1, w);
    ArrangedKept(g0, p.Tiles(), n, w);
  }

  /** `while (p.empty_row != offset) slide('d')`, up the last column. */
  method EmptyUpLastColumn(p: Puzzle, offset: int)
    requires Sound(p) && 0 <= offset && offset + 3 <= p.dim
    requires Arranged(p.Tiles(), p.dim, RowGuard(offset, p.dim))
    requires p.emptyRow > offset && p.emptyCol == p.dim - 1
    modifies p, p.board
    ensures Sound(p) && Even(p) == old(Even(p)) && p.moveNumber >= old(p.moveNumber)
    ensures Arranged(p.Tiles(), p.dim, RowGuard(offset, p.dim))
    ensures p.emptyRow == offset && p.emptyCol == p.dim - 1
  {
    ghost var n, w, g0 := p.dim, RowGuard(offset, p.dim), p.Tiles();
    ghost var er := p.emptyRow;
    SlideAlongColumn(p, 'd', offset);
    SlidColumnKeeps(g0, g0, n, n - 1, er, offset, w);
    ArrangedKept(g0, p.Tiles(), n, w);
  }

  /** The awkward case, with the tile at (offset + 1, offset): the empty
      cell runs left to column offset + 1, then circles through the two
      rows below so that the tile ends two rows down, at
      (offset + 2, offset + 1), and the row is shifted. */
  method AwkwardRow(p: Puzzle, offset: int, ghost t: int)
    requires Sound(p) && 0 <= offset && offset + 3 <= p.dim
    requires Arranged(p.Tiles(), p.dim, RowGuard(offset, p.dim))
    requires p.emptyRow == offset && p.emptyCol == p.dim - 1 && p.Tiles()[offset + 1][offset] == t
    modifies p, p.board
    ensures Sound(p) && Even(p) == old(Even(p)) && p.moveNumber >= old(p.moveNumber)
    ensures ShiftedRow(p.Tiles(), p.dim, offset)
    ensures p.emptyRow == offset && p.emptyCol == offset && p.Tiles()[offset + 2][offset + 1] == t
  {
    ghost var n, g0 := p.dim, p.Tiles();
    SlideAlongRow(p, 'r', offset + 1);
    ghost var g1 := p.Tiles();
    ShiftRowTiles(g0, g1, n, offset, offset + 1);
    AwkwardTurn(p, offset, t);
  }

  /** The awkward case once the row is shifted up to column offset + 1:
      the tile goes down and right out of the way, then the last slide
      moves the tile of (offset, offset) right, which completes the shift. */
  method AwkwardTurn(p: Puzzle, offset: int, ghost t: int)
    requires Sound(p) && 0 <= offset && offset + 3 <= p.dim
    requires Arranged(p.Tiles(), p.dim, Guard(offset, offset, 0, 0, 0, 0))
    requires p.Tiles()[offset][offset] == Home(p.dim, offset, offset)
    requires forall c :: offset + 1 < c < p.dim ==> p.Tiles()[offset][c] == Home(p.dim, offset, c - 1)
    requires p.emptyRow == offset && p.emptyCol == offset + 1 && p.Tiles()[offset + 1][offset] == t
    modifies p, p.board
    ensures Sound(p) && Even(p) == old(Even(p)) && p.moveNumber >= old(p.moveNumber)
    ensures ShiftedRow(p.Tiles(), p.dim, offset)
    ensures p.emptyRow == offset && p.emptyCol == offset && p.Tiles()[offset + 2][offset + 1] == t
  {
    ghost var n, g1 := p.dim, p.Tiles();
    AwkwardDown(p, offset, t, g1);
    AwkwardUp(p, offset, t, g1);
    ghost var g2, w := p.Tiles(), Guard(offset, offset, offset + 2, n, 0, 0);
    ghost var a, b, c, d := PushPair(p, 'r', w, g2, offset + 2, offset + 1, t, offset, offset, Home(n, offset, offset));
    AwkwardShifted(g1, g2, p.Tiles(), n, offset);
  }

  /** The guard while the tile is moved out of the way in the awkward
      case: as ShiftGuard, but (offset, offset + 1) is open and
      (offset, offset) keeps its tile. */
  function AwkwardGuard(n: int, offset: int): Guard
  {
    Guard(offset, offset, offset + 2, n, offset, offset + 1)
  }

  /** 'u', 'r', 'u' from (offset, offset + 1): the tile at
      (offset + 1, offset) moves right and the empty cell ends below
      where it was, at (offset + 2, offset). */
  method AwkwardDown(p: Puzzle, offset: int, ghost t: int, ghost ref: Grid)
    requires 0 <= offset && offset + 3 <= p.dim && Kept(p, AwkwardGuard(p.dim, offset), ref)
    requires p.emptyRow == offset && p.emptyCol == offset + 1 && p.Tiles()[offset + 1][offset] == t
    modifies p, p.board
    ensures Kept(p, AwkwardGuard(p.dim, offset), ref) && Even(p) == old(Even(p)) && p.moveNumber >= old(p.moveNumber)
    ensures p.emptyRow == offset + 2 && p.emptyCol == offset && p.Tiles()[offset + 1][offset + 1] == t
  {
    ghost var w := AwkwardGuard(p.dim, offset);
    ghost var r, c := Push(p, 'u', w, ref, offset + 1, offset, t);
    r, c := Push(p, 'r', w, ref, r, c, t);
    r, c := Push(p, 'u', w, ref, r, c, t);
  }

  /** 'l', 'd', 'd' from (offset + 2, offset): the tile at
      (offset + 1, offset + 1) moves down and the empty cell returns to
      (offset, offset + 1). */
  method AwkwardUp(p: Puzzle, offset: int, ghost t: int, ghost ref: Grid)
    requires 0 <= offset && offset + 3 <= p.dim && Kept(p, AwkwardGuard(p.dim, offset), ref)
    requires p.emptyRow == offset + 2 && p.emptyCol == offset && p.Tiles()[offset + 1][offset + 1] == t
    modifies p, p.board
    ensures Kept(p, AwkwardGuard(p.dim, offset), ref) && Even(p) == old(Even(p)) && p.moveNumber >= old(p.moveNumber)
    ensures p.emptyRow == offset && p.emptyCol == offset + 1 && p.Tiles()[offset + 2][offset + 1] == t
  {
    ghost var w := AwkwardGuard(p.dim, offset);
    ghost var r, c := Push(p, 'l', w, ref, offset + 1, offset + 1, t);
    r, c := Push(p, 'd', w, ref, r, c, t);
    r, c := Push(p, 'd', w, ref, r, c, t);
  }

  /** The awkward case leaves the row shifted: the cycle kept the shifted
      tiles and (offset, offset), whose tile the last slide moved right. */
  lemma AwkwardShifted(g1: Grid, g2: Grid, g3: Grid, n: int, offset: int)
    requires IsGrid(g1, n) && IsGrid(g2, n) && IsGrid(g3, n) && 0 <= offset && offset + 3 <= n
    requires Arranged(g1, n, Guard(offset, offset, 0, 0, 0, 0)) && g1[offset][offset] == Home(n, offset, offset)
    requires forall c :: offset + 1 < c < n ==> g1[offset][c] == Home(n, offset, c - 1)
    requires Keeps(g1, g2, n, AwkwardGuard(n, offset))
    requires Keeps(g2, g3, n, Guard(offset, offset, offset + 2, n, 0, 0))
    requires g3[offset][offset + 1] == Home(n, offset, offset)
    ensures ShiftedRow(g3, n, offset)
  {
    forall c | offset + 1 <= c < n
      ensures g3[offset][c] == Home(n, offset, c - 1)
    {
      if c > offset + 1 {
        assert Guarded(Guard(offset, offset, offset + 2, n, 0, 0), offset, c);
      }
    }
  }

  /** The other case: the empty cell runs left to column `offset`, which
      shifts the row, then steps down; the tile, elsewhere below the row,
      stays put. */
  method ShiftRow(p: Puzzle, offset: int, ghost t: int, ghost tr: int, ghost tc: int)
    requires Sound(p) && 0 <= offset && offset + 3 <= p.dim
    requires Arranged(p.Tiles(), p.dim, RowGuard(offset, p.dim))
    requires p.emptyRow == offset && p.emptyCol == p.dim - 1
    requires offset < tr < p.dim && offset <= tc < p.dim && (tr, tc) != (offset + 1, offset)
    requires p.Tiles()[tr][tc] == t
    modifies p, p.board
    ensures Sound(p) && Even(p) == old(Even(p)) && p.moveNumber >= old(p.moveNumber)
    ensures ShiftedRow(p.Tiles(), p.dim, offset)
    ensures p.emptyRow == offset + 1 && p.emptyCol == offset && p.Tiles()[tr][tc] == t
  {
    ghost var n, g0 := p.dim, p.Tiles();
    SlideAlongRow(p, 'r', offset);
    ghost var g1, w := p.Tiles(), ShiftGuard(n, offset);
    ShiftRowTiles(g0, g1, n, offset, offset);
    assert g1[tr][tc] == t;
    ghost var r, c := Push(p, 'u', w, g1, tr, tc, t);
    ShiftedKept(g1, p.Tiles(), n, offset);
  }

  /** Where the empty cell and the last tile of the row are once the row is
      shifted: after the awkward case, the empty cell at (offset, offset)
      and the tile at (offset + 2, offset + 1); otherwise the empty cell at
      (offset + 1, offset) and the tile elsewhere below row `offset`. */
  ghost predicate LastRowStart(n: int, offset: int, er: int, ec: int, tr: int, tc: int)
  {
    ((er, ec) == (offset, offset) && (tr, tc) == (offset + 2, offset + 1)) ||
    ((er, ec) == (offset + 1, offset) && offset < tr < n && offset <= tc < n && (tr, tc) != (offset + 1, offset))
  }

  /** From there every cell `move_target_to_col` visits to bring the tile
      to column dim - 2 is open under the shifted row. */
  lemma ColPlanLastRow(n: int, offset: int, er: int, ec: int, tr: int, tc: int)
    requires 0 <= offset && offset + 3 <= n && LastRowStart(n, offset, er, ec, tr, tc) && tc != n - 2
    ensures ColPlanOpen(ShiftGuard(n, offset), n, er, ec, tr, tc, n - 2)
  {
    var w := ShiftGuard(n, offset);
    var fr, fc := Clamp(er, tr - 1, tr + 1), Clamp(ec, tc - 1, tc + 1);
    forall c | Between(c, ec, fc)
      ensures Open(w, n, er, c)
    {
    }
    forall r | Between(r, er, fr)
      ensures Open(w, n, r, fc)
    {
    }
    assert PathOpen(w, n, er, ec, tr, tc);
    assert BelowOpen(w, n, fr, fc, tr, tc);
    var r := BelowRow(n, tr);
    forall c | Between(c, tc, n - 2)
      ensures Open(w, n, r, c) && Open(w, n, r + 1, c)
    {
    }
  }

  /** Then every cell `move_target_to_row` visits to lift the tile from
      row R of column dim - 2 to row offset + 1 is open. The empty cell is
      on row `offset` only in the awkward case with nothing moved, where
      dim is offset + 3. */
  lemma RowPlanLastRow(n: int, offset: int, er: int, ec: int, tr: int)
    requires 0 <= offset && offset + 3 <= n && offset + 1 < tr < n
    requires Open(ShiftGuard(n, offset), n, er, ec) && (er, ec) != (tr, n - 2)
    requires er == offset ==> n == offset + 3
    ensures RowPlanOpen(ShiftGuard(n, offset), n, er, ec, tr, n - 2, offset + 1)
  {
    var w, tc := ShiftGuard(n, offset), n - 2;
    var fr, fc := Clamp(er, tr - 1, tr + 1), Clamp(ec, tc - 1, tc + 1);
    forall c | Between(c, ec, fc)
      ensures Open(w, n, er, c)
    {
    }
    forall r | Between(r, er, fr)
      ensures Open(w, n, r, fc)
    {
    }
    assert PathOpen(w, n, er, ec, tr, tc);
    assert RightOpen(w, n, fr, fc, tr, tc);
    forall r | Between(r, tr, offset + 1)
      ensures Open(w, n, r, tc) && Open(w, n, r, tc + 1)
    {
    }
  }

  /** And every cell `move_target_to_col` visits to bring the tile from
      (offset + 1, dim - 2) to the last column is open. */
  lemma ColPlanLastStep(n: int, offset: int, er: int, ec: int)
    requires 0 <= offset && offset + 3 <= n && Open(ShiftGuard(n, offset), n, er, ec)
    requires er > offset && (er, ec) != (offset + 1, n - 2)
    ensures ColPlanOpen(ShiftGuard(n, offset), n, er, ec, offset + 1, n - 2, n - 1)
  {
    var w, tr, tc := ShiftGuard(n, offset), offset + 1, n - 2;
    var fr, fc := Clamp(er, tr - 1, tr + 1), Clamp(ec, tc - 1, tc + 1);
    forall c | Between(c, ec, fc)
      ensures Open(w, n, er, c)
    {
    }
    forall r | Between(r, er, fr)
      ensures Open(w, n, r, fc)
    {
    }
    assert PathOpen(w, n, er, ec, tr, tc);
    assert BelowOpen(w, n, fr, fc, tr, tc);
    forall c | Between(c, tc, n - 1)
      ensures Open(w, n, tr, c) && Open(w, n, tr + 1, c)
    {
    }
  }

  /** `move_target_to_col(target_tile, p.dim - 2)` with the row shifted:
      the tile reaches column dim - 2 in some row R below row `offset`. */
  method LastTileToColumn(p: Puzzle, offset: int, t: int, ghost tr: int, ghost tc: int) returns (ghost r: int)
    requires Sound(p) && 0 <= offset && offset + 3 <= p.dim && ShiftedRow(p.Tiles(), p.dim, offset)
    requires t == Home(p.dim, offset, p.dim - 1)
    requires LastRowStart(p.dim, offset, p.emptyRow, p.emptyCol, tr, tc) && p.Tiles()[tr][tc] == t
    modifies p, p.board
    ensures Sound(p) && Even(p) == old(Even(p)) && p.moveNumber >= old(p.moveNumber)
    ensures ShiftedRow(p.Tiles(), p.dim, offset)
    ensures offset < r < p.dim && p.Tiles()[r][p.dim - 2] == t
    ensures p.emptyRow == offset ==> r == offset + 2 && p.dim == offset + 3
  {
    ghost var n, w, ref := p.dim, ShiftGuard(p.dim, offset), p.Tiles();
    HomeRange(n, offset, n - 1);
    if tc != n - 2 {
      ColPlanLastRow(n, offset, p.emptyRow, p.emptyCol, tr, tc);
    }
    MoveTargetToCol(p, t, p.dim - 2, w, ref, tr, tc);
    r := if tc == n - 2 then tr else BelowRow(n, tr);
    ShiftedKept(ref, p.Tiles(), n, offset);
  }

  /** `move_target_to_row(target_tile, offset + 1)`: the tile rises to
      (offset + 1, dim - 2), and the empty cell is below row `offset`. */
  method LastTileUp(p: Puzzle, offset: int, t: int, ghost r: int)
    requires Sound(p) && 0 <= offset && offset + 3 <= p.dim && ShiftedRow(p.Tiles(), p.dim, offset)
    requires t == Home(p.dim, offset, p.dim - 1)
    requires offset < r < p.dim && p.Tiles()[r][p.dim - 2] == t
    requires p.emptyRow == offset ==> r == offset + 2 && p.dim == offset + 3
    modifies p, p.board
    ensures Sound(p) && Even(p) == old(Even(p)) && p.moveNumber >= old(p.moveNumber)
    ensures ShiftedRow(p.Tiles(), p.dim, offset)
    ensures p.Tiles()[offset + 1][p.dim - 2] == t && p.emptyRow > offset
  {
    ghost var n, w, ref := p.dim, ShiftGuard(p.dim, offset), p.Tiles();
    HomeRange(n, offset, n - 1);
    ShiftedEmptyOpen(ref, n, p.emptyRow, p.emptyCol, offset);
    if r != offset + 1 {
      RowPlanLastRow(n, offset, p.emptyRow, p.emptyCol, r);
    }
    MoveTargetToRow(p, t, offset + 1, w, ref, r, p.dim - 2);
    ShiftedKept(ref, p.Tiles(), n, offset);
  }

  /** `move_target_to_col(target_tile, p.dim - 1)`: the tile reaches
      (offset + 1, dim - 1), the cell below its own, with the empty cell
      beside it. */
  method LastTileAcross(p: Puzzle, offset: int, t: int)
    requires Sound(p) && 0 <= offset && offset + 3 <= p.dim && ShiftedRow(p.Tiles(), p.dim, offset)
    requires t == Home(p.dim, offset, p.dim - 1)
    requires p.Tiles()[offset + 1][p.dim - 2] == t && p.emptyRow > offset
    modifies p, p.board
    ensures Sound(p) && Even(p) == old(Even(p)) && p.moveNumber >= old(p.moveNumber)
    ensures ShiftedRow(p.Tiles(), p.dim, offset)
    ensures p.Tiles()[offset + 1][p.dim - 1] == t && p.emptyRow == offset + 1 && p.emptyCol == p.dim - 2
  {
    ghost var n, w, ref := p.dim, ShiftGuard(p.dim, offset), p.Tiles();
    HomeRange(n, offset, n - 1);
    ShiftedEmptyOpen(ref, n, p.emptyRow, p.emptyCol, offset);
    ColPlanLastStep(n, offset, p.emptyRow, p.emptyCol);
    MoveTargetToCol(p, t, p.dim - 1, w, ref, offset + 1, p.dim - 2);
    ShiftedKept(ref, p.Tiles(), n, offset);
  }

  /** A run of the empty cell from (offset, offset) to the end of a shifted
      row puts every placed tile back in its cell. */
  lemma UnshiftRow(g: Grid, h: Grid, n: int, offset: int)
    requires IsGrid(g, n) && ShiftedRow(g, n, offset)
    requires h == SlidRow(g, n, offset, offset, n - 1)
    ensures Arranged(h, n, RowGuard(offset, n))
  {
    forall r, c | 0 <= r < n && 0 <= c < n && Guarded(RowGuard(offset, n), r, c)
      ensures h[r][c] == Home(n, r, c)
    {
      if r == offset && offset <= c {
        assert h[r][c] == g[offset][c + 1];
      }
    }
  }

  /** The last loops of the manoeuvre: the empty cell runs left along row
      offset + 1 and up to (offset, offset), then right along the row, which
      shifts the placed tiles back; a last slide lifts the tile into the
      row's last cell. */
  method RestoreLastRow(p: Puzzle, offset: int, t: int)
    requires Sound(p) && 0 <= offset && offset + 3 <= p.dim && ShiftedRow(p.Tiles(), p.dim, offset)
    requires t == Home(p.dim, offset, p.dim - 1)
    requires p.Tiles()[offset + 1][p.dim - 1] == t && p.emptyRow == offset + 1 && p.emptyCol == p.dim - 2
    modifies p, p.board
    ensures Sound(p) && Even(p) == old(Even(p)) && p.moveNumber >= old(p.moveNumber)
    ensures Arranged(p.Tiles(), p.dim, Guard(offset + 1, offset, 0, 0, 0, 0)) && p.emptyRow == offset + 1
  {
    ghost var n := p.dim;
    ReturnToRowStart(p, offset, t);
    ghost var g2 := p.Tiles();
    SlideAlongRow(p, 'l', p.dim - 1);
    ghost var g3 := p.Tiles();
    UnshiftRow(g2, g3, n, offset);
    ghost var r, c := Push(p, 'u', RowGuard(offset, n), g3, offset + 1, n - 1, t);
    ArrangedKept(g3, p.Tiles(), n, RowGuard(offset, n));
    ArrangedExtend(p.Tiles(), n, offset, n);
    RowComplete(p.Tiles(), n, offset);
  }

  /** The empty cell runs left along row offset + 1 to column `offset`, then
      up to (offset, offset); the shifted row and the tile stay put. */
  method ReturnToRowStart(p: Puzzle, offset: int, t: int)
    requires Sound(p) && 0 <= offset && offset + 3 <= p.dim && ShiftedRow(p.Tiles(), p.dim, offset)
    requires p.Tiles()[offset + 1][p.dim - 1] == t && p.emptyRow == offset + 1 && p.emptyCol == p.dim - 2
    modifies p, p.board
    ensures Sound(p) && Even(p) == old(Even(p)) && p.moveNumber >= old(p.moveNumber)
    ensures ShiftedRow(p.Tiles(), p.dim, offset)
    ensures p.Tiles()[offset + 1][p.dim - 1] == t && p.emptyRow == offset && p.emptyCol == offset
  {
    ReturnAlongRowBelow(p, offset);
    ReturnUpToRow(p, offset);
  }

  /** `while (p.empty_col != offset) slide('r')` along row offset + 1; the
      last column is not touched. */
  method ReturnAlongRowBelow(p: Puzzle, offset: int)
    requires Sound(p) && 0 <= offset && offset + 3 <= p.dim && ShiftedRow(p.Tiles(), p.dim, offset)
    requires p.emptyRow == offset + 1 && p.emptyCol == p.dim - 2
    modifies p, p.board
    ensures Sound(p) && Even(p) == old(Even(p)) && p.moveNumber >= old(p.moveNumber)
    ensures ShiftedRow(p.Tiles(), p.dim, offset)
    ensures p.Tiles()[offset + 1][p.dim - 1] == old(p.Tiles())[offset + 1][p.dim - 1]
    ensures p.emptyRow == offset + 1 && p.emptyCol == offset
  {
    ghost var n, w, g0 := p.dim, ShiftGuard(p.dim, offset), p.Tiles();
    SlideAlongRow(p, 'r', offset);
    SlidRowKeeps(g0, g0, n, offset + 1, n - 2, offset, w);
    ShiftedKept(g0, p.Tiles(), n, offset);
  }

  /** `while (p.empty_row != offset) slide('d')` up column `offset`; the
      last column is not touched. */
  method ReturnUpToRow(p: Puzzle, offset: int)
    requires Sound(p) && 0 <= offset && offset + 3 <= p.dim && ShiftedRow(p.Tiles(), p.dim, offset)
    requires p.emptyRow == offset + 1 && p.emptyCol == offset
    modifies p, p.board
    ensures Sound(p) && Even(p) == old(Even(p)) && p.moveNumber >= old(p.moveNumber)
    ensures ShiftedRow(p.Tiles(), p.dim, offset)
    ensures p.Tiles()[offset + 1][p.dim - 1] == old(p.Tiles())[offset + 1][p.dim - 1]
    ensures p.emptyRow == offset && p.emptyCol == offset
  {
    ghost var n, w, g0 := p.dim, ShiftGuard(p.dim, offset), p.Tiles();
    SlideAlongColumn(p, 'd', offset);
    SlidColumnKeeps(g0, g0, n, offset, offset + 1, offset, w);
    ShiftedKept(g0, p.Tiles(), n, offset);
  }

  /** The last tile of row `offset`, dim * (offset + 1), when it is not yet
      in its cell: the whole manoeuvre after the first loop of
      `arrange_row`. */
  method LastRowTile(p: Puzzle, offset: int, t: int)
    requires Sound(p) && 0 <= offset && offset + 3 <= p.dim
    requires Arranged(p.Tiles(), p.dim, RowGuard(offset, p.dim)) && p.emptyRow > offset
    requires t == Home(p.dim, offset, p.dim - 1)
    modifies p, p.board
    ensures Sound(p) && Even(p) == old(Even(p)) && p.moveNumber >= old(p.moveNumber)
    ensures Arranged(p.Tiles(), p.dim, Guard(offset + 1, offset, 0, 0, 0, 0)) && p.emptyRow > offset
  {
    EmptyToRowEnd(p, offset);
    ghost var n := p.dim;
    HomeRange(n, offset, n - 1);
    ghost var tr, tc := FindOpen(p.Tiles(), n, p.emptyRow, p.emptyCol, RowGuard(offset, n), offset, n - 1);
    if p.board[offset + 1, offset] == t {
      AwkwardRow(p, offset, t);
      tr, tc := offset + 2, offset + 1;
    } else {
      ShiftRow(p, offset, t, tr, tc);
    }
    ghost var r := LastTileToColumn(p, offset, t, tr, tc);
    LastTileUp(p, offset, t, r);
    LastTileAcross(p, offset, t);
    RestoreLastRow(p, offset, t);
  }

  /** `arrange_row(offset)`: with every row above `offset` and every column
      left of it arranged, and at least three rows left, the tiles of row
      `offset` are placed in order; then that row is arranged too. */
  method ArrangeRow(p: Puzzle, offset: int)
    requires Sound(p) && 0 <= offset && offset + 3 <= p.dim
    requires Arranged(p.Tiles(), p.dim, Guard(offset, offset, 0, 0, 0, 0))
    modifies p, p.board
    ensures Sound(p) && Even(p) == old(Even(p)) && p.moveNumber >= old(p.moveNumber)
    ensures Arranged(p.Tiles(), p.dim, Guard(offset + 1, offset, 0, 0, 0, 0)) && p.emptyRow > offset
  {
    for j := offset + 1 to p.dim
      invariant Sound(p) && Even(p) == old(Even(p)) && p.moveNumber >= old(p.moveNumber)
      invariant Arranged(p.Tiles(), p.dim, RowGuard(offset, j))
      invariant j > offset + 1 ==> p.emptyRow > offset
    {
      PlaceRowTile(p, offset, j);
    }
    var targetTile := p.dim * (offset + 1);
    assert targetTile == Home(p.dim, offset, p.dim - 1);
    if p.board[offset, p.dim - 1] != targetTile {
      LastRowTile(p, offset, targetTile);
    } else {
      ArrangedExtend(p.Tiles(), p.dim, offset, p.dim);
      RowComplete(p.Tiles(), p.dim, offset);
    }
  }

  // ---------------------------------------------------------------------
  // arrange_column: the tiles before the last one.

  /** The guard while the tile for row j of column `offset` is placed:
      rows up to `offset`, columns left of it, and the cells of column
      `offset` placed so far. */
  function ColGuard(offset: int, j: int): Guard
  {
    Guard(offset + 1, offset, 0, 0, offset + 1, j)
  }

  /** With the empty cell right of column `offset` (or nothing of the
      column placed yet) every cell `move_target_to_row` visits to bring a
      tile to row j is open. */
  lemma RowPlanForColumn(n: int, offset: int, j: int, er: int, ec: int, tr: int, tc: int)
    requires 0 <= offset && offset + 3 <= n && offset + 1 <= j < n - 1
    requires Open(ColGuard(offset, j), n, er, ec) && Open(ColGuard(offset, j), n, tr, tc)
    requires (er, ec) != (tr, tc)
    requires j > offset + 1 ==> ec > offset
    ensures RowPlanOpen(ColGuard(offset, j), n, er, ec, tr, tc, j)
  {
    var w := ColGuard(offset, j);
    var fr, fc := Clamp(er, tr - 1, tr + 1), Clamp(ec, tc - 1, tc + 1);
    forall c | Between(c, ec, fc)
      ensures Open(w, n, er, c)
    {
    }
    forall r | Between(r, er, fr)
      ensures Open(w, n, r, fc)
    {
    }
    assert PathOpen(w, n, er, ec, tr, tc);
    assert RightOpen(w, n, fr, fc, tr, tc);
    var c := RightCol(n, tc);
    forall r | Between(r, tr, j)
      ensures Open(w, n, r, c) && Open(w, n, r, c + 1)
    {
    }
  }

  /** Likewise every cell `move_target_to_col` visits to bring the tile
      from column c of row j to column `offset` is open. */
  lemma ColPlanForColumn(n: int, offset: int, j: int, er: int, ec: int, c: int)
    requires 0 <= offset && offset + 3 <= n && offset + 1 <= j < n - 1 && offset < c < n
    requires Open(ColGuard(offset, j), n, er, ec) && (er, ec) != (j, c)
    requires j > offset + 1 ==> ec > offset
    ensures ColPlanOpen(ColGuard(offset, j), n, er, ec, j, c, offset)
  {
    var w := ColGuard(offset, j);
    var fr, fc := Clamp(er, j - 1, j + 1), Clamp(ec, c - 1, c + 1);
    forall k | Between(k, ec, fc)
      ensures Open(w, n, er, k)
    {
    }
    forall r | Between(r, er, fr)
      ensures Open(w, n, r, fc)
    {
    }
    assert PathOpen(w, n, er, ec, j, c);
    assert BelowOpen(w, n, fr, fc, j, c);
    forall k | Between(k, c, offset)
      ensures Open(w, n, j, k) && Open(w, n, j + 1, k)
    {
    }
  }

  /** Once the tile is in column `offset` below the placed ones, the column
      is arranged one cell further. */
  lemma ColumnExtend(g: Grid, n: int, offset: int, j: int)
    requires IsGrid(g, n) && 0 <= offset && offset + 1 <= j < n
    requires Arranged(g, n, ColGuard(offset, j)) && g[j][offset] == Home(n, j, offset)
    ensures Arranged(g, n, ColGuard(offset, j + 1))
  {
  }

  /** One pass of the first loop of `arrange_column`: tile
      j * dim + offset + 1, which belongs in row j, is carried to that row
      and then left to column `offset`; if the empty cell is left in that
      column it steps right. */
  method PlaceColumnTile(p: Puzzle, offset: int, j: int)
    requires Sound(p) && 0 <= offset && offset + 3 <= p.dim && offset + 1 <= j < p.dim - 1
    requires Arranged(p.Tiles(), p.dim, ColGuard(offset, j))
    requires j > offset + 1 ==> p.emptyCol > offset
    modifies p, p.board
    ensures Sound(p) && Even(p) == old(Even(p)) && p.moveNumber >= old(p.moveNumber)
    ensures Arranged(p.Tiles(), p.dim, ColGuard(offset, j + 1)) && p.emptyCol > offset
  {
    var targetTile := (j * p.dim) + offset + 1;
    ghost var c := ColumnTileToRow(p, offset, j, targetTile);
    ColumnTileToColumn(p, offset, j, targetTile, c);
  }

  /** The first half of a pass: `move_target_to_row` brings the tile to
      row j, in column c. */
  method ColumnTileToRow(p: Puzzle, offset: int, j: int, targetTile: int) returns (ghost c: int)
    requires Sound(p) && 0 <= offset && offset + 3 <= p.dim && offset + 1 <= j < p.dim - 1
    requires Arranged(p.Tiles(), p.dim, ColGuard(offset, j))
    requires j > offset + 1 ==> p.emptyCol > offset
    requires targetTile == (j * p.dim) + offset + 1
    modifies p, p.board
    ensures Sound(p) && Even(p) == old(Even(p)) && p.moveNumber >= old(p.moveNumber)
    ensures Arranged(p.Tiles(), p.dim, ColGuard(offset, j))
    ensures offset <= c < p.dim && p.Tiles()[j][c] == targetTile
    ensures c != offset && j > offset + 1 ==> p.emptyCol > offset
  {
    ghost var n, w, ref := p.dim, ColGuard(offset, j), p.Tiles();
    assert targetTile == Home(n, j, offset);
    HomeRange(n, j, offset);
    ghost var tr, tc := FindOpen(ref, n, p.emptyRow, p.emptyCol, w, j, offset);
    EmptyOpen(ref, n, p.emptyRow, p.emptyCol, w);
    RowPlanForColumn(n, offset, j, p.emptyRow, p.emptyCol, tr, tc);
    MoveTargetToRow(p, targetTile, j, w, ref, tr, tc);
    c := if tr == j then tc else RightCol(n, tc);
    ArrangedKept(ref, p.Tiles(), n, w);
  }

  /** The second half: `move_target_to_col` moves the tile from column c
      to column `offset`, and a last slide takes the empty cell out of
      that column. */
  method ColumnTileToColumn(p: Puzzle, offset: int, j: int, targetTile: int, ghost c: int)
    requires Sound(p) && 0 <= offset && offset + 3 <= p.dim && offset + 1 <= j < p.dim - 1
    requires Arranged(p.Tiles(), p.dim, ColGuard(offset, j))
    requires targetTile == (j * p.dim) + offset + 1
    requires offset <= c < p.dim && p.Tiles()[j][c] == targetTile
    requires c != offset && j > offset + 1 ==> p.emptyCol > offset
    modifies p, p.board
    ensures Sound(p) && Even(p) == old(Even(p)) && p.moveNumber >= old(p.moveNumber)
    ensures Arranged(p.Tiles(), p.dim, ColGuard(offset, j + 1)) && p.emptyCol > offset
  {
    ghost var n, w, ref := p.dim, ColGuard(offset, j), p.Tiles();
    assert targetTile == Home(n, j, offset);
    HomeRange(n, j, offset);
    EmptyOpen(ref, n, p.emptyRow, p.emptyCol, w);
    if c != offset {
      ColPlanForColumn(n, offset, j, p.emptyRow, p.emptyCol, c);
    }
    MoveTargetToCol(p, targetTile, offset, w, ref, j, c);
    assert p.Tiles()[j][offset] == targetTile;
    ArrangedKept(ref, p.Tiles(), n, w);
    EmptyOpen(p.Tiles(), n, p.emptyRow, p.emptyCol, w);
    ColumnExtend(p.Tiles(), n, offset, j);
    if p.emptyCol == offset {
      ghost var w', ref' := ColGuard(offset, j + 1), p.Tiles();
      EmptyOpen(ref', n, p.emptyRow, p.emptyCol, w');
      ghost var r', c' := Push(p, 'l', w', ref', j, offset, targetTile);
      ArrangedKept(ref', p.Tiles(), n, w');
    }
  }

  // ---------------------------------------------------------------------
  // arrange_column: the last tile.

  /** The guard while the last tile of column `offset` is brought beside
      its cell: the rows above, the columns to the left, and the placed
      tiles of the column, now one row below their cells. */
  function ColShiftGuard(n: int, offset: int): Guard
  {
    Guard(offset + 1, offset, 0, 0, offset + 2, n)
  }

  /** Rows up to `offset` and columns left of it are arranged, and the
      placed tiles of column `offset` sit one row below their cells. */
  ghost predicate ShiftedColumn(g: Grid, n: int, offset: int)
    requires IsGrid(g, n)
  {
    0 <= offset < n && Arranged(g, n, Guard(offset + 1, offset, 0, 0, 0, 0)) &&
    forall r :: offset + 2 <= r < n ==> g[r][offset] == Home(n, r - 1, offset)
  }

  lemma ShiftedColumnKept(ref: Grid, g: Grid, n: int, offset: int)
    requires IsGrid(ref, n) && IsGrid(g, n) && ShiftedColumn(ref, n, offset)
    requires Keeps(ref, g, n, ColShiftGuard(n, offset))
    ensures ShiftedColumn(g, n, offset)
  {
  }

  /** With the column shifted, the empty cell is open. */
  lemma ShiftedColumnEmptyOpen(g: Grid, n: int, er: int, ec: int, offset: int)
    requires n >= 1 && IsGrid(g, n) && PermutationGrid(g, n, er, ec)
    requires 0 <= offset && offset + 1 < n && ShiftedColumn(g, n, offset)
    ensures Open(ColShiftGuard(n, offset), n, er, ec)
  {
    if Guarded(ColShiftGuard(n, offset), er, ec) {
      if er <= offset || ec < offset {
        HomeRange(n, er, ec);
      } else {
        HomeRange(n, er - 1, offset);
      }
    }
  }

  /** Once the column is complete, column `offset` joins the arranged
      columns. */
  lemma ColumnComplete(g: Grid, n: int, offset: int)
    requires IsGrid(g, n) && 0 <= offset < n && Arranged(g, n, ColGuard(offset, n))
    ensures Arranged(g, n, Guard(offset + 1, offset + 1, 0, 0, 0, 0))
  {
  }

  /** The placed tiles of column `offset` once the empty cell, at the foot
      of the column, has run up to row b: those it passed are one row below
      their cells, the others are where they were. */
  lemma ShiftColumnTiles(g: Grid, h: Grid, n: int, offset: int, b: int)
    requires IsGrid(g, n) && 0 <= offset < b < n && Arranged(g, n, ColGuard(offset, n - 1))
    requires h == SlidColumn(g, n, offset, n - 1, b)
    ensures Arranged(h, n, Guard(offset + 1, offset, 0, 0, 0, 0))
    ensures forall r :: b < r < n ==> h[r][offset] == Home(n, r - 1, offset)
    ensures forall r :: offset < r < b ==> h[r][offset] == Home(n, r, offset)
  {
    forall r | b < r < n
      ensures h[r][offset] == Home(n, r - 1, offset)
    {
      assert h[r][offset] == g[r - 1][offset];
    }
  }

  /** The first two loops of the last-tile manoeuvre: the empty cell goes
      down to the last row, then left to column `offset`. */
  method EmptyToColumnEnd(p: Puzzle, offset: int)
    requires Sound(p) && 0 <= offset && offset + 3 <= p.dim
    requires Arranged(p.Tiles(), p.dim, ColGuard(offset, p.dim - 1)) && p.emptyCol > offset
    modifies p, p.board
    ensures Sound(p) && Even(p) == old(Even(p)) && p.moveNumber >= old(p.moveNumber)
    ensures Arranged(p.Tiles(), p.dim, ColGuard(offset, p.dim - 1))
    ensures p.emptyRow == p.dim - 1 && p.emptyCol == offset
  {
    ghost var n, w, g0 := p.dim, ColGuard(offset, p.dim - 1), p.Tiles();
    EmptyOpen(g0, n, p.emptyRow, p.emptyCol, w);
    ghost var er, ec := p.emptyRow, p.emptyCol;
    SlideAlongColumn(p, 'u', p.dim - 1);
    ghost var g1 := p.Tiles();
    SlidColumnKeeps(g0, g0, n, ec, er, n - 1, w);
    SlideAlongRow(p, 'r', offset);
    SlidRowKeeps(g0, g1, n, n - 1, ec, offset, w);
    ArrangedKept(g0, p.Tiles(), n, w);
  }

  /** The awkward case, with the tile at (offset + 1, offset + 1): the
      empty cell runs up to row offset + 2, then circles through the two
      columns beside it so that the tile ends at (offset + 2, offset + 2),
      and the column is shifted. */
  method AwkwardColumn(p: Puzzle, offset: int, ghost t: int)
    requires Sound(p) && 0 <= offset && offset + 3 <= p.dim
    requires Arranged(p.Tiles(), p.dim, ColGuard(offset, p.dim - 1))
    requires p.emptyRow == p.dim - 1 && p.emptyCol == offset && p.Tiles()[offset + 1][offset + 1] == t
    modifies p, p.board
    ensures Sound(p) && Even(p) == old(Even(p)) && p.moveNumber >= old(p.moveNumber)
    ensures ShiftedColumn(p.Tiles(), p.dim, offset)
    ensures p.emptyRow == offset + 1 && p.emptyCol == offset && p.Tiles()[offset + 2][offset + 2] == t
  {
    ghost var n, g0 := p.dim, p.Tiles();
    SlideAlongColumn(p, 'd', offset + 2);
    ghost var g1 := p.Tiles();
    ShiftColumnTiles(g0, g1, n, offset, offset + 2);
    AwkwardColumnTurn(p, offset, t);
  }

  /** The awkward case once the column is shifted up to row offset + 2: the
      tile goes down and right out of the way, then the last slide moves
      the tile of (offset + 1, offset) down, which completes the shift. */
  method AwkwardColumnTurn(p: Puzzle, offset: int, ghost t: int)
    requires Sound(p) && 0 <= offset && offset + 3 <= p.dim
    requires Arranged(p.Tiles(), p.dim, Guard(offset + 1, offset, 0, 0, 0, 0))
    requires p.Tiles()[offset + 1][offset] == Home(p.dim, offset + 1, offset)
    requires forall r :: offset + 2 < r < p.dim ==> p.Tiles()[r][offset] == Home(p.dim, r - 1, offset)
    requires p.emptyRow == offset + 2 && p.emptyCol == offset && p.Tiles()[offset + 1][offset + 1] == t
    modifies p, p.board
    ensures Sound(p) && Even(p) == old(Even(p)) && p.moveNumber >= old(p.moveNumber)
    ensures ShiftedColumn(p.Tiles(), p.dim, offset)
    ensures p.emptyRow == offset + 1 && p.emptyCol == offset && p.Tiles()[offset + 2][offset + 2] == t
  {
    ghost var n, g1 := p.dim, p.Tiles();
    AwkwardColumnLeft(p, offset, t, g1);
    AwkwardColumnRight(p, offset, t, g1);
    ghost var g2, w := p.Tiles(), Guard(offset + 1, offset, 0, 0, offset + 3, n);
    ghost var a, b, c, d := PushPair(p, 'd', w, g2, offset + 2, offset + 2, t, offset + 1, offset, Home(n, offset + 1, offset));
    AwkwardColumnShifted(g1, g2, p.Tiles(), n, offset);
  }

  /** The guard while the tile is moved out of the way in the awkward
      case: as ColShiftGuard, but (offset + 2, offset) is open and
      (offset + 1, offset) keeps its tile. */
  function AwkwardColumnGuard(n: int, offset: int): Guard
  {
    Guard(offset + 1, offset, offset, offset + 1, offset + 3, n)
  }

  /** 'l', 'd', 'l' from (offset + 2, offset): the tile at
      (offset + 1, offset + 1) moves down and the empty cell ends at
      (offset + 1, offset + 2). */
  method AwkwardColumnLeft(p: Puzzle, offset: int, ghost t: int, ghost ref: Grid)
    requires 0 <= offset && offset + 3 <= p.dim && Kept(p, AwkwardColumnGuard(p.dim, offset), ref)
    requires p.emptyRow == offset + 2 && p.emptyCol == offset && p.Tiles()[offset + 1][offset + 1] == t
    modifies p, p.board
    ensures Kept(p, AwkwardColumnGuard(p.dim, offset), ref) && Even(p) == old(Even(p)) && p.moveNumber >= old(p.moveNumber)
    ensures p.emptyRow == offset + 1 && p.emptyCol == offset + 2 && p.Tiles()[offset + 2][offset + 1] == t
  {
    ghost var w := AwkwardColumnGuard(p.dim, offset);
    ghost var r, c := Push(p, 'l', w, ref, offset + 1, offset + 1, t);
    r, c := Push(p, 'd', w, ref, r, c, t);
    r, c := Push(p, 'l', w, ref, r, c, t);
  }

  /** 'u', 'r', 'r' from (offset + 1, offset + 2): the tile at
      (offset + 2, offset + 1) moves right and the empty cell returns to
      (offset + 2, offset). */
  method AwkwardColumnRight(p: Puzzle, offset: int, ghost t: int, ghost ref: Grid)
    requires 0 <= offset && offset + 3 <= p.dim && Kept(p, AwkwardColumnGuard(p.dim, offset), ref)
    requires p.emptyRow == offset + 1 && p.emptyCol == offset + 2 && p.Tiles()[offset + 2][offset + 1] == t
    modifies p, p.board
    ensures Kept(p, AwkwardColumnGuard(p.dim, offset), ref) && Even(p) == old(Even(p)) && p.moveNumber >= old(p.moveNumber)
    ensures p.emptyRow == offset + 2 && p.emptyCol == offset && p.Tiles()[offset + 2][offset + 2] == t
  {
    ghost var w := AwkwardColumnGuard(p.dim, offset);
    ghost var r, c := Push(p, 'u', w, ref, offset + 2, offset + 1, t);
    r, c := Push(p, 'r', w, ref, r, c, t);
    r, c := Push(p, 'r', w, ref, r, c, t);
  }

  /** The awkward case leaves the column shifted: the cycle kept the
      shifted tiles and (offset + 1, offset), whose tile the last slide
      moved down. */
  lemma AwkwardColumnShifted(g1: Grid, g2: Grid, g3: Grid, n: int, offset: int)
    requires IsGrid(g1, n) && IsGrid(g2, n) && IsGrid(g3, n) && 0 <= offset && offset + 3 <= n
    requires Arranged(g1, n, Guard(offset + 1, offset, 0, 0, 0, 0))
    requires g1[offset + 1][offset] == Home(n, offset + 1, offset)
    requires forall r :: offset + 2 < r < n ==> g1[r][offset] == Home(n, r - 1, offset)
    requires Keeps(g1, g2, n, AwkwardColumnGuard(n, offset))
    requires Keeps(g2, g3, n, Guard(offset + 1, offset, 0, 0, offset + 3, n))
    requires g3[offset + 2][offset] == Home(n, offset + 1, offset)
    ensures ShiftedColumn(g3, n, offset)
  {
    forall r | offset + 2 <= r < n
      ensures g3[r][offset] == Home(n, r - 1, offset)
    {
      if r > offset + 2 {
        assert Guarded(Guard(offset + 1, offset, 0, 0, offset + 3, n), r, offset);
      }
    }
  }

  /** The other case: the empty cell runs up to row offset + 1, which
      shifts the column, then steps right; the tile, elsewhere right of
      the column, stays put. */
  method ShiftColumn(p: Puzzle, offset: int, ghost t: int, ghost tr: int, ghost tc: int)
    requires Sound(p) && 0 <= offset && offset + 3 <= p.dim
    requires Arranged(p.Tiles(), p.dim, ColGuard(offset, p.dim - 1))
    requires p.emptyRow == p.dim - 1 && p.emptyCol == offset
    requires offset < tr < p.dim && offset < tc < p.dim && (tr, tc) != (offset + 1, offset + 1)
    requires p.Tiles()[tr][tc] == t
    modifies p, p.board
    ensures Sound(p) && Even(p) == old(Even(p)) && p.moveNumber >= old(p.moveNumber)
    ensures ShiftedColumn(p.Tiles(), p.dim, offset)
    ensures p.emptyRow == offset + 1 && p.emptyCol == offset + 1 && p.Tiles()[tr][tc] == t
  {
    ghost var n := p.dim;
    ShiftColumnRun(p, offset);
    ghost var g1 := p.Tiles();
    assert g1[tr][tc] == t;
    ghost var r, c := Push(p, 'l', ColShiftGuard(n, offset), g1, tr, tc, t);
    ShiftedColumnKept(g1, p.Tiles(), n, offset);
  }

  /** The run up column `offset` of the other case, which shifts the column
      and leaves every other column alone. */
  method ShiftColumnRun(p: Puzzle, offset: int)
    requires Sound(p) && 0 <= offset && offset + 3 <= p.dim
    requires Arranged(p.Tiles(), p.dim, ColGuard(offset, p.dim - 1))
    requires p.emptyRow == p.dim - 1 && p.emptyCol == offset
    modifies p, p.board
    ensures Sound(p) && Even(p) == old(Even(p)) && p.moveNumber >= old(p.moveNumber)
    ensures ShiftedColumn(p.Tiles(), p.dim, offset)
    ensures p.emptyRow == offset + 1 && p.emptyCol == offset
    ensures forall r, k :: 0 <= r < p.dim && 0 <= k < p.dim && k != offset ==> p.Tiles()[r][k] == old(p.Tiles())[r][k]
  {
    ghost var n, g0 := p.dim, p.Tiles();
    ColumnRunUp(p, offset, offset + 1);
    ShiftColumnTiles(g0, p.Tiles(), n, offset, offset + 1);
    forall r, k | 0 <= r < n && 0 <= k < n && k != offset
      ensures p.Tiles()[r][k] == g0[r][k]
    {
      SlidColumnOff(g0, n, offset, n - 1, offset + 1, r, k);
    }
  }

  /** The run `while (p.empty_row != stop) slide('d')` from the foot of
      column `offset`. */
  method ColumnRunUp(p: Puzzle, offset: int, stop: int)
    requires Sound(p) && 0 <= offset < stop < p.dim
    requires p.emptyRow == p.dim - 1 && p.emptyCol == offset
    modifies p, p.board
    ensures Sound(p) && Even(p) == old(Even(p)) && p.moveNumber >= old(p.moveNumber)
    ensures p.emptyRow == stop && p.emptyCol == offset
    ensures p.Tiles() == SlidColumn(old(p.Tiles()), p.dim, offset, p.dim - 1, stop)
  {
    SlideAlongColumn(p, 'd', stop);
  }

  /** Where the empty cell and the last tile of the column are once the
      column is shifted: after the awkward case, the empty cell at
      (offset + 1, offset) and the tile at (offset + 2, offset + 2);
      otherwise the empty cell at (offset + 1, offset + 1) and the tile
      elsewhere right of column `offset`. */
  ghost predicate LastColumnStart(n: int, offset: int, er: int, ec: int, tr: int, tc: int)
  {
    ((er, ec) == (offset + 1, offset) && (tr, tc) == (offset + 2, offset + 2)) ||
    ((er, ec) == (offset + 1, offset + 1) && offset < tr < n && offset < tc < n && (tr, tc) != (offset + 1, offset + 1))
  }

  /** From there every cell `move_target_to_row` visits to bring the tile
      to row dim - 2 is open under the shifted column. */
  lemma RowPlanLastColumn(n: int, offset: int, er: int, ec: int, tr: int, tc: int)
    requires 0 <= offset && offset + 3 <= n && LastColumnStart(n, offset, er, ec, tr, tc) && tr != n - 2
    ensures RowPlanOpen(ColShiftGuard(n, offset), n, er, ec, tr, tc, n - 2)
  {
    var w := ColShiftGuard(n, offset);
    var fr, fc := Clamp(er, tr - 1, tr + 1), Clamp(ec, tc - 1, tc + 1);
    forall c | Between(c, ec, fc)
      ensures Open(w, n, er, c)
    {
    }
    forall r | Between(r, er, fr)
      ensures Open(w, n, r, fc)
    {
    }
    assert PathOpen(w, n, er, ec, tr, tc);
    assert RightOpen(w, n, fr, fc, tr, tc);
    var c := RightCol(n, tc);
    forall r | Between(r, tr, n - 2)
      ensures Open(w, n, r, c) && Open(w, n, r, c + 1)
    {
    }
  }

  /** Then every cell `move_target_to_col` visits to bring the tile from
      column C of row dim - 2 to column offset + 1 is open. The empty cell
      is in column `offset` only in the awkward case with nothing moved,
      where C is offset + 2. */
  lemma ColPlanLastColumn(n: int, offset: int, er: int, ec: int, tc: int)
    requires 0 <= offset && offset + 3 <= n && offset + 1 < tc < n
    requires Open(ColShiftGuard(n, offset), n, er, ec) && (er, ec) != (n - 2, tc)
    requires ec == offset ==> tc == offset + 2
    ensures ColPlanOpen(ColShiftGuard(n, offset), n, er, ec, n - 2, tc, offset + 1)
  {
    var w, tr := ColShiftGuard(n, offset), n - 2;
    var fr, fc := Clamp(er, tr - 1, tr + 1), Clamp(ec, tc - 1, tc + 1);
    forall c | Between(c, ec, fc)
      ensures Open(w, n, er, c)
    {
    }
    forall r | Between(r, er, fr)
      ensures Open(w, n, r, fc)
    {
    }
    assert PathOpen(w, n, er, ec, tr, tc);
    assert BelowOpen(w, n, fr, fc, tr, tc);
    forall c | Between(c, tc, offset + 1)
      ensures Open(w, n, tr, c) && Open(w, n, tr + 1, c)
    {
    }
  }

  /** And every cell `move_target_to_row` visits to bring the tile from
      (dim - 2, offset + 1) to the last row is open. */
  lemma RowPlanLastColumnStep(n: int, offset: int, er: int, ec: int)
    requires 0 <= offset && offset + 3 <= n && Open(ColShiftGuard(n, offset), n, er, ec)
    requires ec > offset && (er, ec) != (n - 2, offset + 1)
    ensures RowPlanOpen(ColShiftGuard(n, offset), n, er, ec, n - 2, offset + 1, n - 1)
  {
    var w, tr, tc := ColShiftGuard(n, offset), n - 2, offset + 1;
    var fr, fc := Clamp(er, tr - 1, tr + 1), Clamp(ec, tc - 1, tc + 1);
    forall c | Between(c, ec, fc)
      ensures Open(w, n, er, c)
    {
    }
    forall r | Between(r, er, fr)
      ensures Open(w, n, r, fc)
    {
    }
    assert PathOpen(w, n, er, ec, tr, tc);
    assert RightOpen(w, n, fr, fc, tr, tc);
    forall r | Between(r, tr, n - 1)
      ensures Open(w, n, r, tc) && Open(w, n, r, tc + 1)
    {
    }
  }

  /** `move_target_to_row(target_tile, p.dim - 2)` with the column shifted:
      the tile reaches row dim - 2 in some column C right of `offset`. */
  method LastTileToRow(p: Puzzle, offset: int, t: int, ghost tr: int, ghost tc: int) returns (ghost c: int)
    requires Sound(p) && 0 <= offset && offset + 3 <= p.dim && ShiftedColumn(p.Tiles(), p.dim, offset)
    requires t == Home(p.dim, p.dim - 1, offset)
    requires LastColumnStart(p.dim, offset, p.emptyRow, p.emptyCol, tr, tc) && p.Tiles()[tr][tc] == t
    modifies p, p.board
    ensures Sound(p) && Even(p) == old(Even(p)) && p.moveNumber >= old(p.moveNumber)
    ensures ShiftedColumn(p.Tiles(), p.dim, offset)
    ensures offset < c < p.dim && p.Tiles()[p.dim - 2][c] == t
    ensures p.emptyCol == offset ==> c == offset + 2
  {
    ghost var n, w, ref := p.dim, ColShiftGuard(p.dim, offset), p.Tiles();
    HomeRange(n, n - 1, offset);
    if tr != n - 2 {
      RowPlanLastColumn(n, offset, p.emptyRow, p.emptyCol, tr, tc);
    }
    MoveTargetToRow(p, t, p.dim - 2, w, ref, tr, tc);
    c := if tr == n - 2 then tc else RightCol(n, tc);
    ShiftedColumnKept(ref, p.Tiles(), n, offset);
  }

  /** `move_target_to_col(target_tile, offset + 1)`: the tile moves left to
      (dim - 2, offset + 1), and the empty cell is right of column
      `offset`. */
  method LastTileLeft(p: Puzzle, offset: int, t: int, ghost c: int)
    requires Sound(p) && 0 <= offset && offset + 3 <= p.dim && ShiftedColumn(p.Tiles(), p.dim, offset)
    requires t == Home(p.dim, p.dim - 1, offset)
    requires offset < c < p.dim && p.Tiles()[p.dim - 2][c] == t
    requires p.emptyCol == offset ==> c == offset + 2
    modifies p, p.board
    ensures Sound(p) && Even(p) == old(Even(p)) && p.moveNumber >= old(p.moveNumber)
    ensures ShiftedColumn(p.Tiles(), p.dim, offset)
    ensures p.Tiles()[p.dim - 2][offset + 1] == t && p.emptyCol > offset
  {
    ghost var n, w, ref := p.dim, ColShiftGuard(p.dim, offset), p.Tiles();
    HomeRange(n, n - 1, offset);
    ShiftedColumnEmptyOpen(ref, n, p.emptyRow, p.emptyCol, offset);
    if c != offset + 1 {
      ColPlanLastColumn(n, offset, p.emptyRow, p.emptyCol, c);
    }
    MoveTargetToCol(p, t, offset + 1, w, ref, p.dim - 2, c);
    ShiftedColumnKept(ref, p.Tiles(), n, offset);
  }

  /** `move_target_to_row(target_tile, p.dim - 1)`: the tile reaches
      (dim - 1, offset + 1), the cell right of its own, with the empty cell
      above it. */
  method LastTileDown(p: Puzzle, offset: int, t: int)
    requires Sound(p) && 0 <= offset && offset + 3 <= p.dim && ShiftedColumn(p.Tiles(), p.dim, offset)
    requires t == Home(p.dim, p.dim - 1, offset)
    requires p.Tiles()[p.dim - 2][offset + 1] == t && p.emptyCol > offset
    modifies p, p.board
    ensures Sound(p) && Even(p) == old(Even(p)) && p.moveNumber >= old(p.moveNumber)
    ensures ShiftedColumn(p.Tiles(), p.dim, offset)
    ensures p.Tiles()[p.dim - 1][offset + 1] == t && p.emptyRow == p.dim - 2 && p.emptyCol == offset + 1
  {
    ghost var n, w, ref := p.dim, ColShiftGuard(p.dim, offset), p.Tiles();
    HomeRange(n, n - 1, offset);
    ShiftedColumnEmptyOpen(ref, n, p.emptyRow, p.emptyCol, offset);
    RowPlanLastColumnStep(n, offset, p.emptyRow, p.emptyCol);
    MoveTargetToRow(p, t, p.dim - 1, w, ref, p.dim - 2, offset + 1);
    ShiftedColumnKept(ref, p.Tiles(), n, offset);
  }

  /** A run of the empty cell from (offset + 1, offset) to the foot of a
      shifted column puts every placed tile back in its cell. */
  lemma UnshiftColumn(g: Grid, h: Grid, n: int, offset: int)
    requires IsGrid(g, n) && offset + 1 < n && ShiftedColumn(g, n, offset)
    requires h == SlidColumn(g, n, offset, offset + 1, n - 1)
    ensures Arranged(h, n, ColGuard(offset, n - 1))
  {
    forall r, c | 0 <= r < n && 0 <= c < n && Guarded(ColGuard(offset, n - 1), r, c)
      ensures h[r][c] == Home(n, r, c)
    {
      if c == offset && offset < r {
        assert h[r][c] == g[r + 1][offset];
      }
    }
  }

  /** The last loops of the manoeuvre: the empty cell runs up column
      offset + 1 and left to (offset + 1, offset), then down the column,
      which shifts the placed tiles back; a last slide moves the tile into
      the column's last cell. */
  method RestoreLastColumn(p: Puzzle, offset: int, t: int)
    requires Sound(p) && 0 <= offset && offset + 3 <= p.dim && ShiftedColumn(p.Tiles(), p.dim, offset)
    requires t == Home(p.dim, p.dim - 1, offset)
    requires p.Tiles()[p.dim - 1][offset + 1] == t && p.emptyRow == p.dim - 2 && p.emptyCol == offset + 1
    modifies p, p.board
    ensures Sound(p) && Even(p) == old(Even(p)) && p.moveNumber >= old(p.moveNumber)
    ensures Arranged(p.Tiles(), p.dim, Guard(offset + 1, offset + 1, 0, 0, 0, 0)) && p.emptyCol == offset + 1
  {
    ghost var n := p.dim;
    ReturnToColumnStart(p, offset, t);
    ghost var g2 := p.Tiles();
    SlideAlongColumn(p, 'u', p.dim - 1);
    ghost var g3 := p.Tiles();
    UnshiftColumn(g2, g3, n, offset);
    ghost var er, ec := p.emptyRow, p.emptyCol;
    assert (er, ec) == (n - 1, offset);
    ghost var r, c := Push(p, 'l', ColGuard(offset, n - 1), g3, n - 1, offset + 1, t);
    LastTilePushed(g3, p.Tiles(), n, offset, t, er, ec, p.emptyRow, p.emptyCol, r, c);
  }

  /** The last push of `RestoreLastColumn`: the empty cell moved right from
      the bottom of column `offset`, taking the column's last tile with it
      into place, which completes the column. */
  lemma LastTilePushed(g3: Grid, g4: Grid, n: int, offset: int, t: int, er: int, ec: int, mr: int, mc: int, r: int, c: int)
    requires IsGrid(g3, n) && IsGrid(g4, n) && 0 <= offset && offset + 3 <= n
    requires Arranged(g3, n, ColGuard(offset, n - 1)) && Keeps(g3, g4, n, ColGuard(offset, n - 1))
    requires t == Home(n, n - 1, offset) && (er, ec) == (n - 1, offset) && (mr, mc) == Step(n, er, ec, 'l')
    requires (r, c) == Follow(n - 1, offset + 1, er, ec, mr, mc) && 0 <= r < n && 0 <= c < n && g4[r][c] == t
    ensures Arranged(g4, n, Guard(offset + 1, offset + 1, 0, 0, 0, 0))
  {
    assert (r, c) == (n - 1, offset);
    ArrangedKept(g3, g4, n, ColGuard(offset, n - 1));
    ColumnExtend(g4, n, offset, n - 1);
    ColumnComplete(g4, n, offset);
  }

  /** The empty cell runs up column offset + 1 to row offset + 1, then left
      to (offset + 1, offset); the shifted column and the tile stay put. */
  method ReturnToColumnStart(p: Puzzle, offset: int, t: int)
    requires Sound(p) && 0 <= offset && offset + 3 <= p.dim && ShiftedColumn(p.Tiles(), p.dim, offset)
    requires p.Tiles()[p.dim - 1][offset + 1] == t && p.emptyRow == p.dim - 2 && p.emptyCol == offset + 1
    modifies p, p.board
    ensures Sound(p) && Even(p) == old(Even(p)) && p.moveNumber >= old(p.moveNumber)
    ensures ShiftedColumn(p.Tiles(), p.dim, offset)
    ensures p.Tiles()[p.dim - 1][offset + 1] == t && p.emptyRow == offset + 1 && p.emptyCol == offset
  {
    ReturnUpColumn(p, offset);
    ReturnAlongRow(p, offset);
  }

  /** `while (p.empty_row != offset + 1) slide('d')` up column offset + 1;
      the last row is not touched. */
  method ReturnUpColumn(p: Puzzle, offset: int)
    requires Sound(p) && 0 <= offset && offset + 3 <= p.dim && ShiftedColumn(p.Tiles(), p.dim, offset)
    requires p.emptyRow == p.dim - 2 && p.emptyCol == offset + 1
    modifies p, p.board
    ensures Sound(p) && Even(p) == old(Even(p)) && p.moveNumber >= old(p.moveNumber)
    ensures ShiftedColumn(p.Tiles(), p.dim, offset)
    ensures p.Tiles()[p.dim - 1][offset + 1] == old(p.Tiles())[p.dim - 1][offset + 1]
    ensures p.emptyRow == offset + 1 && p.emptyCol == offset + 1
  {
    ghost var n, w, g0 := p.dim, ColShiftGuard(p.dim, offset), p.Tiles();
    SlideAlongColumn(p, 'd', offset + 1);
    SlidColumnKeeps(g0, g0, n, offset + 1, n - 2, offset + 1, w);
    ShiftedColumnKept(g0, p.Tiles(), n, offset);
  }

  /** `while (p.empty_col != offset) slide('r')` along row offset + 1; the
      last row is not touched. */
  method ReturnAlongRow(p: Puzzle, offset: int)
    requires Sound(p) && 0 <= offset && offset + 3 <= p.dim && ShiftedColumn(p.Tiles(), p.dim, offset)
    requires p.emptyRow == offset + 1 && p.emptyCol == offset + 1
    modifies p, p.board
    ensures Sound(p) && Even(p) == old(Even(p)) && p.moveNumber >= old(p.moveNumber)
    ensures ShiftedColumn(p.Tiles(), p.dim, offset)
    ensures p.Tiles()[p.dim - 1][offset + 1] == old(p.Tiles())[p.dim - 1][offset + 1]
    ensures p.emptyRow == offset + 1 && p.emptyCol == offset
  {
    ghost var n, w, g0 := p.dim, ColShiftGuard(p.dim, offset), p.Tiles();
    SlideAlongRow(p, 'r', offset);
    assert p.Tiles() == SlidRow(g0, n, offset + 1, offset + 1, offset);
    SlidRowKeeps(g0, g0, n, offset + 1, offset + 1, offset, w);
    ShiftedColumnKept(g0, p.Tiles(), n, offset);
  }

  /** The first part of the manoeuvre: the empty cell goes to the foot of
      the column, and the column is shifted down one row, in the awkward
      case or the other; (tr, tc) is where the tile then is. */
  method ShiftLastColumn(p: Puzzle, offset: int, t: int) returns (ghost tr: int, ghost tc: int)
    requires Sound(p) && 0 <= offset && offset + 3 <= p.dim
    requires Arranged(p.Tiles(), p.dim, ColGuard(offset, p.dim - 1)) && p.emptyCol > offset
    requires t == Home(p.dim, p.dim - 1, offset)
    modifies p, p.board
    ensures Sound(p) && Even(p) == old(Even(p)) && p.moveNumber >= old(p.moveNumber)
    ensures ShiftedColumn(p.Tiles(), p.dim, offset)
    ensures LastColumnStart(p.dim, offset, p.emptyRow, p.emptyCol, tr, tc) && p.Tiles()[tr][tc] == t
  {
    EmptyToColumnEnd(p, offset);
    ghost var n := p.dim;
    HomeRange(n, n - 1, offset);
    tr, tc := FindOpen(p.Tiles(), n, p.emptyRow, p.emptyCol, ColGuard(offset, n - 1), n - 1, offset);
    if p.board[offset + 1, offset + 1] == t {
      AwkwardColumn(p, offset, t);
      tr, tc := offset + 2, offset + 2;
    } else {
      ShiftColumn(p, offset, t, tr, tc);
    }
  }

  /** The last tile of column `offset`, dim * (dim - 1) + offset + 1, when
      it is not yet in its cell: the whole manoeuvre after the first loop
      of `arrange_column`. */
  method LastColumnTile(p: Puzzle, offset: int, t: int)
    requires Sound(p) && 0 <= offset && offset + 3 <= p.dim
    requires Arranged(p.Tiles(), p.dim, ColGuard(offset, p.dim - 1)) && p.emptyCol > offset
    requires t == Home(p.dim, p.dim - 1, offset)
    modifies p, p.board
    ensures Sound(p) && Even(p) == old(Even(p)) && p.moveNumber >= old(p.moveNumber)
    ensures Arranged(p.Tiles(), p.dim, Guard(offset + 1, offset + 1, 0, 0, 0, 0)) && p.emptyCol > offset
  {
    ghost var tr, tc := ShiftLastColumn(p, offset, t);
    ghost var c := LastTileToRow(p, offset, t, tr, tc);
    LastTileLeft(p, offset, t, c);
    LastTileDown(p, offset, t);
    RestoreLastColumn(p, offset, t);
  }

  /** `arrange_column(offset)`: with rows up to `offset` and the columns
      left of it arranged, and at least three columns left, the tiles of
      column `offset` are placed in order; then that column is arranged
      too. */
  method ArrangeColumn(p: Puzzle, offset: int)
    requires Sound(p) && 0 <= offset && offset + 3 <= p.dim
    requires Arranged(p.Tiles(), p.dim, Guard(offset + 1, offset, 0, 0, 0, 0))
    modifies p, p.board
    ensures Sound(p) && Even(p) == old(Even(p)) && p.moveNumber >= old(p.moveNumber)
    ensures Arranged(p.Tiles(), p.dim, Guard(offset + 1, offset + 1, 0, 0, 0, 0)) && p.emptyCol > offset
  {
    for j := offset + 1 to p.dim - 1
      invariant Sound(p) && Even(p) == old(Even(p)) && p.moveNumber >= old(p.moveNumber)
      invariant Arranged(p.Tiles(), p.dim, ColGuard(offset, j))
      invariant j > offset + 1 ==> p.emptyCol > offset
    {
      PlaceColumnTile(p, offset, j);
    }
    var targetTile := (p.dim * (p.dim - 1)) + offset + 1;
    assert targetTile == Home(p.dim, p.dim - 1, offset);
    if p.board[p.dim - 1, offset] != targetTile {
      LastColumnTile(p, offset, targetTile);
    } else {
      ColumnExtend(p.Tiles(), p.dim, offset, p.dim - 1);
      ColumnComplete(p.Tiles(), p.dim, offset);
    }
  }

  // ---------------------------------------------------------------------
  // The general solver's loop in god_mode.

  /** The row-column pairs of `god_mode` while at least three rows are
      left: `arrange_row(offset)` then `arrange_column(offset)` for offset
      0, 1, ..., dim - 3. Every cell outside the lower-right 2 x 2 block
      then holds its own tile, whatever sound board the loop starts from. */
  method ArrangeOuter(p: Puzzle)
    requires Sound(p) && 3 <= p.dim
    modifies p, p.board
    ensures Sound(p) && Even(p) == old(Even(p)) && p.moveNumber >= old(p.moveNumber)
    ensures Arranged(p.Tiles(), p.dim, Guard(p.dim - 2, p.dim - 2, 0, 0, 0, 0))
  {
    for offset := 0 to p.dim - 2
      invariant Sound(p) && Even(p) == old(Even(p)) && p.moveNumber >= old(p.moveNumber)
      invariant Arranged(p.Tiles(), p.dim, Guard(offset, offset, 0, 0, 0, 0))
    {
      ArrangeRow(p, offset);
      ArrangeColumn(p, offset);
    }
  }
}
