/** The positioning routines of the general ("human") solver: moving the
    empty cell next to a target tile, then below it or to its right, and
    moving a tile to a given row or column by cycling the empty cell round
    it. Each routine is a sequence of `slide` calls on the puzzle. Besides
    where the empty cell and the target tile end up, every contract says
    which cells keep their tiles: a `Guard` names the cells the solver has
    already arranged, and a routine whose planned path avoids them leaves
    them alone. */
module GeneralMoves {
  import opened Common
  import opened Solvability
  import opened Game

  // ---------------------------------------------------------------------
  // Guarded cells and the state the routines keep.

  /** The cells the solver must not disturb: every row above `top`, every
      column left of `left`, the cells of row `top` in columns
      rowLo .. rowHi - 1 and the cells of column `left` in rows
      colLo .. colHi - 1. */
  datatype Guard = Guard(top: int, left: int, rowLo: int, rowHi: int, colLo: int, colHi: int)

  predicate Guarded(w: Guard, r: int, c: int)
  {
    r < w.top || c < w.left || (r == w.top && w.rowLo <= c < w.rowHi) ||
    (c == w.left && w.colLo <= r < w.colHi)
  }

  /** A cell of the board that tiles may move through. */
  predicate Open(w: Guard, n: int, r: int, c: int)
  {
    0 <= r < n && 0 <= c < n && !Guarded(w, r, c)
  }

  /** `h` holds what `g` holds in every guarded cell. */
  ghost predicate Keeps(g: Grid, h: Grid, n: int, w: Guard)
    requires IsGrid(g, n) && IsGrid(h, n)
  {
    forall r, c :: 0 <= r < n && 0 <= c < n && Guarded(w, r, c) ==> h[r][c] == g[r][c]
  }

  /** The puzzle is well formed and its board is a permutation. */
  ghost predicate Sound(p: Puzzle)
    reads p, p.board
  {
    p.Valid() && PermutationGrid(p.Tiles(), p.dim, p.emptyRow, p.emptyCol)
  }

  /** The puzzle is sound and its guarded cells hold what `ref` holds. */
  ghost predicate Kept(p: Puzzle, w: Guard, ref: Grid)
    reads p, p.board
  {
    Sound(p) && IsGrid(ref, p.dim) && Keeps(ref, p.Tiles(), p.dim, w)
  }

  /** The board keeps the parity invariant of a solvable board. */
  ghost predicate Even(p: Puzzle)
    reads p, p.board
    requires p.Valid()
  {
    var b := Flatten(p.Tiles(), p.dim);
    0 in b && ParityEven(p.dim, b)
  }

  /** Where the tile of cell (r, c) is once the empty cell has moved from
      (er, ec) to (mr, mc): the tile that slid moved into (er, ec), every
      other tile stayed. */
  function Follow(r: int, c: int, er: int, ec: int, mr: int, mc: int): (int, int)
  {
    if (r, c) == (mr, mc) then (er, ec) else (r, c)
  }

  /** A tile away from the empty cell is where Follow says after the move. */
  lemma FollowTile(g: Grid, n: int, er: int, ec: int, mr: int, mc: int, r: int, c: int)
    requires IsGrid(g, n) && 0 <= er < n && 0 <= ec < n && 0 <= mr < n && 0 <= mc < n
    requires 0 <= r < n && 0 <= c < n && (r, c) != (er, ec)
    ensures var f := Follow(r, c, er, ec, mr, mc);
      0 <= f.0 < n && 0 <= f.1 < n && f != (mr, mc) && MoveGrid(g, n, er, ec, mr, mc)[f.0][f.1] == g[r][c]
  {
  }

  /** `slide` on a sound puzzle whose empty cell moves between open cells:
      the guarded cells keep their tiles, the board stays a permutation with
      the same parity, and the tile of (tr, tc) is followed to its new cell. */
  method Push(p: Puzzle, key: char, ghost w: Guard, ghost ref: Grid, ghost tr: int, ghost tc: int, ghost t: int)
    returns (ghost tr': int, ghost tc': int)
    requires Kept(p, w, ref)
    requires Open(w, p.dim, p.emptyRow, p.emptyCol)
    requires Open(w, p.dim, Step(p.dim, p.emptyRow, p.emptyCol, key).0, Step(p.dim, p.emptyRow, p.emptyCol, key).1)
    requires 0 <= tr < p.dim && 0 <= tc < p.dim && (tr, tc) != (p.emptyRow, p.emptyCol) && p.Tiles()[tr][tc] == t
    modifies p, p.board
    ensures Kept(p, w, ref) && Even(p) == old(Even(p))
    ensures (p.emptyRow, p.emptyCol) == Step(p.dim, old(p.emptyRow), old(p.emptyCol), key)
    ensures p.moveNumber >= old(p.moveNumber)
    ensures (tr', tc') == Follow(tr, tc, old(p.emptyRow), old(p.emptyCol), p.emptyRow, p.emptyCol)
    ensures 0 <= tr' < p.dim && 0 <= tc' < p.dim && (tr', tc') != (p.emptyRow, p.emptyCol)
    ensures p.Tiles()[tr'][tc'] == t
  {
    ghost var g, er, ec := p.Tiles(), p.emptyRow, p.emptyCol;
    ghost var m := Step(p.dim, er, ec, key);
    SlideKeepsParity(g, p.dim, er, ec, key);
    MoveKeeps(ref, g, p.dim, w, er, ec, m.0, m.1);
    FollowTile(g, p.dim, er, ec, m.0, m.1, tr, tc);
    p.Slide(key);
    var (r, c) := Follow(tr, tc, er, ec, p.emptyRow, p.emptyCol);
    tr', tc' := r, c;
  }

  /** `slide` as in Push, following two tiles at once. */
  method PushPair(p: Puzzle, key: char, ghost w: Guard, ghost ref: Grid,
                  ghost tr: int, ghost tc: int, ghost t: int, ghost sr: int, ghost sc: int, ghost s: int)
    returns (ghost tr': int, ghost tc': int, ghost sr': int, ghost sc': int)
    requires Kept(p, w, ref)
    requires Open(w, p.dim, p.emptyRow, p.emptyCol)
    requires Open(w, p.dim, Step(p.dim, p.emptyRow, p.emptyCol, key).0, Step(p.dim, p.emptyRow, p.emptyCol, key).1)
    requires 0 <= tr < p.dim && 0 <= tc < p.dim && (tr, tc) != (p.emptyRow, p.emptyCol) && p.Tiles()[tr][tc] == t
    requires 0 <= sr < p.dim && 0 <= sc < p.dim && (sr, sc) != (p.emptyRow, p.emptyCol) && p.Tiles()[sr][sc] == s
    modifies p, p.board
    ensures Kept(p, w, ref) && Even(p) == old(Even(p))
    ensures (p.emptyRow, p.emptyCol) == Step(p.dim, old(p.emptyRow), old(p.emptyCol), key)
    ensures p.moveNumber >= old(p.moveNumber)
    ensures (tr', tc') == Follow(tr, tc, old(p.emptyRow), old(p.emptyCol), p.emptyRow, p.emptyCol)
    ensures (sr', sc') == Follow(sr, sc, old(p.emptyRow), old(p.emptyCol), p.emptyRow, p.emptyCol)
    ensures 0 <= tr' < p.dim && 0 <= tc' < p.dim && (tr', tc') != (p.emptyRow, p.emptyCol) && p.Tiles()[tr'][tc'] == t
    ensures 0 <= sr' < p.dim && 0 <= sc' < p.dim && (sr', sc') != (p.emptyRow, p.emptyCol) && p.Tiles()[sr'][sc'] == s
  {
    ghost var g, er, ec := p.Tiles(), p.emptyRow, p.emptyCol;
    ghost var m := Step(p.dim, er, ec, key);
    SlideKeepsParity(g, p.dim, er, ec, key);
    MoveKeeps(ref, g, p.dim, w, er, ec, m.0, m.1);
    FollowTile(g, p.dim, er, ec, m.0, m.1, tr, tc);
    FollowTile(g, p.dim, er, ec, m.0, m.1, sr, sc);
    p.Slide(key);
    tr', tc' := Follow(tr, tc, er, ec, p.emptyRow, p.emptyCol).0, Follow(tr, tc, er, ec, p.emptyRow, p.emptyCol).1;
    sr', sc' := Follow(sr, sc, er, ec, p.emptyRow, p.emptyCol).0, Follow(sr, sc, er, ec, p.emptyRow, p.emptyCol).1;
  }

  /** A move between open cells keeps every guarded cell. */
  lemma MoveKeeps(ref: Grid, g: Grid, n: int, w: Guard, er: int, ec: int, mr: int, mc: int)
    requires IsGrid(ref, n) && IsGrid(g, n) && Keeps(ref, g, n, w)
    requires Open(w, n, er, ec) && Open(w, n, mr, mc)
    ensures Keeps(ref, MoveGrid(g, n, er, ec, mr, mc), n, w)
  {
  }

  // ---------------------------------------------------------------------
  // move_empty_to_target

  function Clamp(x: int, lo: int, hi: int): int
  {
    if x < lo then lo else if x > hi then hi else x
  }

  predicate Between(x: int, a: int, b: int)
  {
    (a <= x <= b) || (b <= x <= a)
  }

  /** The cells `move_empty_to_target` passes through are open: along the
      row of the empty cell (er, ec) to the column next to the target
      (tr, tc), then along that column to the row next to it. */
  ghost predicate PathOpen(w: Guard, n: int, er: int, ec: int, tr: int, tc: int)
  {
    var fr, fc := Clamp(er, tr - 1, tr + 1), Clamp(ec, tc - 1, tc + 1);
    (forall c :: Between(c, ec, fc) ==> Open(w, n, er, c)) &&
    (forall r :: Between(r, er, fr) ==> Open(w, n, r, fc))
  }

  /** `move_empty_to_target`: the empty cell moves along its row until it is
      in a column next to the target's, then along that column until it is
      in a row next to the target's. It ends in one of the eight cells
      round the target, which keeps its tile. */
  method MoveEmptyToTarget(p: Puzzle, targetRow: int, targetCol: int, ghost w: Guard, ghost ref: Grid)
    requires Kept(p, w, ref)
    requires 0 <= targetRow < p.dim && 0 <= targetCol < p.dim
    requires (p.emptyRow, p.emptyCol) != (targetRow, targetCol)
    requires PathOpen(w, p.dim, p.emptyRow, p.emptyCol, targetRow, targetCol)
    modifies p, p.board
    ensures Kept(p, w, ref) && Even(p) == old(Even(p))
    ensures p.emptyRow == Clamp(old(p.emptyRow), targetRow - 1, targetRow + 1)
    ensures p.emptyCol == Clamp(old(p.emptyCol), targetCol - 1, targetCol + 1)
    ensures -1 <= p.emptyRow - targetRow <= 1 && -1 <= p.emptyCol - targetCol <= 1
    ensures (p.emptyRow, p.emptyCol) != (targetRow, targetCol)
    ensures p.Tiles()[targetRow][targetCol] == old(p.Tiles()[targetRow][targetCol])
    ensures p.moveNumber >= old(p.moveNumber)
  {
    ghost var er, ec := p.emptyRow, p.emptyCol;
    ghost var fr, fc := Clamp(er, targetRow - 1, targetRow + 1), Clamp(ec, targetCol - 1, targetCol + 1);
    MoveAlongRow(p, targetRow, targetCol, w, ref);
    assert p.emptyRow == er && p.emptyCol == fc;
    MoveAlongColumn(p, targetRow, targetCol, w, ref);
  }

  /** The first two loops of `move_empty_to_target`: along the row. */
  method MoveAlongRow(p: Puzzle, targetRow: int, targetCol: int, ghost w: Guard, ghost ref: Grid)
    requires Kept(p, w, ref)
    requires 0 <= targetRow < p.dim && 0 <= targetCol < p.dim
    requires (p.emptyRow, p.emptyCol) != (targetRow, targetCol)
    requires PathOpen(w, p.dim, p.emptyRow, p.emptyCol, targetRow, targetCol)
    modifies p, p.board
    ensures Kept(p, w, ref) && Even(p) == old(Even(p))
    ensures p.emptyRow == old(p.emptyRow) && p.emptyCol == Clamp(old(p.emptyCol), targetCol - 1, targetCol + 1)
    ensures (p.emptyRow, p.emptyCol) != (targetRow, targetCol)
    ensures PathOpen(w, p.dim, p.emptyRow, p.emptyCol, targetRow, targetCol)
    ensures p.Tiles()[targetRow][targetCol] == old(p.Tiles()[targetRow][targetCol])
    ensures p.moveNumber >= old(p.moveNumber)
  {
    ghost var er, ec := p.emptyRow, p.emptyCol;
    ghost var fr, fc := Clamp(er, targetRow - 1, targetRow + 1), Clamp(ec, targetCol - 1, targetCol + 1);
    ghost var t := p.Tiles()[targetRow][targetCol];
    while p.emptyCol + 1 < targetCol
      invariant Kept(p, w, ref) && Even(p) == old(Even(p))
      invariant p.emptyRow == er && ec <= p.emptyCol && (p.emptyCol == ec || p.emptyCol <= targetCol - 1)
      invariant (p.emptyRow, p.emptyCol) != (targetRow, targetCol)
      invariant p.Tiles()[targetRow][targetCol] == t && p.moveNumber >= old(p.moveNumber)
      decreases targetCol - p.emptyCol
    {
      assert Between(p.emptyCol, ec, fc) && Between(p.emptyCol + 1, ec, fc);
      var _, _ := Push(p, 'l', w, ref, targetRow, targetCol, t);
    }
    while p.emptyCol - 1 > targetCol
      invariant Kept(p, w, ref) && Even(p) == old(Even(p))
      invariant p.emptyRow == er && Between(p.emptyCol, ec, fc) && (p.emptyCol >= targetCol + 1 || p.emptyCol == fc)
      invariant (p.emptyRow, p.emptyCol) != (targetRow, targetCol)
      invariant p.Tiles()[targetRow][targetCol] == t && p.moveNumber >= old(p.moveNumber)
      decreases p.emptyCol
    {
      assert Between(p.emptyCol, ec, fc) && Between(p.emptyCol - 1, ec, fc);
      var _, _ := Push(p, 'r', w, ref, targetRow, targetCol, t);
    }
    assert Between(p.emptyCol, ec, fc);
  }

  /** The last two loops of `move_empty_to_target`: along the column. */
  method MoveAlongColumn(p: Puzzle, targetRow: int, targetCol: int, ghost w: Guard, ghost ref: Grid)
    requires Kept(p, w, ref)
    requires 0 <= targetRow < p.dim && 0 <= targetCol < p.dim
    requires (p.emptyRow, p.emptyCol) != (targetRow, targetCol)
    requires p.emptyCol == Clamp(p.emptyCol, targetCol - 1, targetCol + 1)
    requires PathOpen(w, p.dim, p.emptyRow, p.emptyCol, targetRow, targetCol)
    modifies p, p.board
    ensures Kept(p, w, ref) && Even(p) == old(Even(p))
    ensures p.emptyRow == Clamp(old(p.emptyRow), targetRow - 1, targetRow + 1) && p.emptyCol == old(p.emptyCol)
    ensures (p.emptyRow, p.emptyCol) != (targetRow, targetCol)
    ensures p.Tiles()[targetRow][targetCol] == old(p.Tiles()[targetRow][targetCol])
    ensures p.moveNumber >= old(p.moveNumber)
  {
    ghost var er, ec := p.emptyRow, p.emptyCol;
    ghost var fr := Clamp(er, targetRow - 1, targetRow + 1);
    ghost var t := p.Tiles()[targetRow][targetCol];
    while p.emptyRow + 1 < targetRow
      invariant Kept(p, w, ref) && Even(p) == old(Even(p))
      invariant p.emptyCol == ec && er <= p.emptyRow && (p.emptyRow == er || p.emptyRow <= targetRow - 1)
      invariant (p.emptyRow, p.emptyCol) != (targetRow, targetCol)
      invariant p.Tiles()[targetRow][targetCol] == t && p.moveNumber >= old(p.moveNumber)
      decreases targetRow - p.emptyRow
    {
      assert Between(p.emptyRow, er, fr) && Between(p.emptyRow + 1, er, fr);
      var _, _ := Push(p, 'u', w, ref, targetRow, targetCol, t);
    }
    while p.emptyRow - 1 > targetRow
      invariant Kept(p, w, ref) && Even(p) == old(Even(p))
      invariant p.emptyCol == ec && Between(p.emptyRow, er, fr) && (p.emptyRow >= targetRow + 1 || p.emptyRow == fr)
      invariant (p.emptyRow, p.emptyCol) != (targetRow, targetCol)
      invariant p.Tiles()[targetRow][targetCol] == t && p.moveNumber >= old(p.moveNumber)
      decreases p.emptyRow
    {
      assert Between(p.emptyRow, er, fr) && Between(p.emptyRow - 1, er, fr);
      var _, _ := Push(p, 'd', w, ref, targetRow, targetCol, t);
    }
  }

  // ---------------------------------------------------------------------
  // move_empty_to_below_target

  /** Row of the target once the empty cell is below it: one row up when
      the target is on the bottom row, where nothing can be below it. */
  function BelowRow(n: int, tr: int): int
  {
    if tr == n - 1 then tr - 1 else tr
  }

  /** The cells `move_empty_to_below_target` moves the empty cell through
      once it is at (er, ec), next to the target (tr, tc), are open. */
  ghost predicate BelowOpen(w: Guard, n: int, er: int, ec: int, tr: int, tc: int)
  {
    if er == tr + 1 then
      Open(w, n, tr + 1, tc)
    else if er == tr then
      if tr == n - 1 then Open(w, n, tr - 1, ec) && Open(w, n, tr - 1, tc) && Open(w, n, tr, tc)
      else Open(w, n, tr + 1, ec) && Open(w, n, tr + 1, tc)
    else if tr == n - 1 then
      Open(w, n, tr - 1, tc) && Open(w, n, tr, tc)
    else if ec == tc - 1 then
      Open(w, n, tr, tc - 1) && Open(w, n, tr + 1, tc - 1) && Open(w, n, tr + 1, tc)
    else if ec == tc && tc == n - 1 then
      Open(w, n, tr - 1, tc - 1) && Open(w, n, tr, tc - 1) && Open(w, n, tr + 1, tc - 1) && Open(w, n, tr + 1, tc)
    else if ec == tc then
      Open(w, n, tr - 1, tc + 1) && Open(w, n, tr, tc + 1) && Open(w, n, tr + 1, tc + 1) && Open(w, n, tr + 1, tc)
    else
      Open(w, n, tr, tc + 1) && Open(w, n, tr + 1, tc + 1) && Open(w, n, tr + 1, tc)
  }

  /** The empty cell is directly below tile `t`, which is at (tr, tc) or,
      when (tr, tc) is on the bottom row, one row higher. */
  ghost predicate BelowTile(p: Puzzle, tr: int, tc: int, t: int)
    reads p, p.board
    requires p.Valid() && 0 <= tr < p.dim && 0 <= tc < p.dim
  {
    var r := BelowRow(p.dim, tr);
    p.emptyRow == r + 1 && p.emptyCol == tc && p.Tiles()[r][tc] == t
  }

  /** `move_empty_to_below_target`: the empty cell goes next to the target,
      then round it to the cell below it. The target moves, one row up,
      only when it is on the bottom row. */
  method MoveEmptyToBelowTarget(p: Puzzle, targetRow: int, targetCol: int, ghost w: Guard, ghost ref: Grid)
    requires Kept(p, w, ref)
    requires 0 <= targetRow < p.dim && 0 <= targetCol < p.dim
    requires (p.emptyRow, p.emptyCol) != (targetRow, targetCol)
    requires PathOpen(w, p.dim, p.emptyRow, p.emptyCol, targetRow, targetCol)
    requires BelowOpen(w, p.dim, Clamp(p.emptyRow, targetRow - 1, targetRow + 1),
      Clamp(p.emptyCol, targetCol - 1, targetCol + 1), targetRow, targetCol)
    modifies p, p.board
    ensures Kept(p, w, ref) && Even(p) == old(Even(p))
    ensures BelowTile(p, targetRow, targetCol, old(p.Tiles()[targetRow][targetCol]))
    ensures p.moveNumber >= old(p.moveNumber)
  {
    ghost var t := p.Tiles()[targetRow][targetCol];
    MoveEmptyToTarget(p, targetRow, targetCol, w, ref);
    assert Between(p.emptyCol, p.emptyCol, p.emptyCol) && Between(p.emptyRow, p.emptyRow, p.emptyRow);
    if p.emptyRow == targetRow + 1 {
      BelowFromUnder(p, targetRow, targetCol, w, ref);
    } else if p.emptyRow == targetRow {
      BelowFromSide(p, targetRow, targetCol, w, ref);
    } else if p.emptyRow == targetRow - 1 {
      if targetRow == p.dim - 1 {
        BelowFromOverBottom(p, targetRow, targetCol, w, ref);
      } else {
        BelowFromOver(p, targetRow, targetCol, w, ref);
      }
    }
  }

  /** The empty cell is on the row below the target. */
  method BelowFromUnder(p: Puzzle, targetRow: int, targetCol: int, ghost w: Guard, ghost ref: Grid)
    requires Kept(p, w, ref)
    requires 0 <= targetRow < p.dim - 1 && 0 <= targetCol < p.dim
    requires p.emptyRow == targetRow + 1 && -1 <= p.emptyCol - targetCol <= 1
    requires Open(w, p.dim, p.emptyRow, p.emptyCol)
    requires BelowOpen(w, p.dim, p.emptyRow, p.emptyCol, targetRow, targetCol)
    modifies p, p.board
    ensures Kept(p, w, ref) && Even(p) == old(Even(p))
    ensures BelowTile(p, targetRow, targetCol, old(p.Tiles()[targetRow][targetCol]))
    ensures p.moveNumber >= old(p.moveNumber)
  {
    ghost var t := p.Tiles()[targetRow][targetCol];
    if p.emptyCol == targetCol - 1 {
      ghost var r, c := Push(p, 'l', w, ref, targetRow, targetCol, t);
    } else if p.emptyCol == targetCol + 1 {
      ghost var r, c := Push(p, 'r', w, ref, targetRow, targetCol, t);
    }
  }

  /** The empty cell is beside the target, on its row. */
  method BelowFromSide(p: Puzzle, targetRow: int, targetCol: int, ghost w: Guard, ghost ref: Grid)
    requires Kept(p, w, ref)
    requires 0 <= targetRow < p.dim && 0 <= targetCol < p.dim
    requires p.emptyRow == targetRow && (p.emptyCol == targetCol - 1 || p.emptyCol == targetCol + 1)
    requires Open(w, p.dim, p.emptyRow, p.emptyCol)
    requires BelowOpen(w, p.dim, p.emptyRow, p.emptyCol, targetRow, targetCol)
    modifies p, p.board
    ensures Kept(p, w, ref) && Even(p) == old(Even(p))
    ensures BelowTile(p, targetRow, targetCol, old(p.Tiles()[targetRow][targetCol]))
    ensures p.moveNumber >= old(p.moveNumber)
  {
    if p.emptyCol == targetCol - 1 {
      if targetRow == p.dim - 1 {
        SideOver(p, 'l', targetRow, targetCol, w, ref);
      } else {
        SideUnder(p, 'l', targetRow, targetCol, w, ref);
      }
    } else if p.emptyCol == targetCol + 1 {
      if targetRow == p.dim - 1 {
        SideOver(p, 'r', targetRow, targetCol, w, ref);
      } else {
        SideUnder(p, 'r', targetRow, targetCol, w, ref);
      }
    }
  }

  /** Beside a target on the bottom row: up, across above the target, and
      down, which brings the target up. `across` is the key towards the
      target's column. */
  method SideOver(p: Puzzle, across: char, targetRow: int, targetCol: int, ghost w: Guard, ghost ref: Grid)
    requires Kept(p, w, ref)
    requires targetRow == p.dim - 1 && 0 <= targetCol < p.dim
    requires p.emptyRow == targetRow && (p.emptyCol == targetCol - 1 || p.emptyCol == targetCol + 1)
    requires across == if p.emptyCol == targetCol - 1 then 'l' else 'r'
    requires Open(w, p.dim, p.emptyRow, p.emptyCol)
    requires BelowOpen(w, p.dim, p.emptyRow, p.emptyCol, targetRow, targetCol)
    modifies p, p.board
    ensures Kept(p, w, ref) && Even(p) == old(Even(p))
    ensures BelowTile(p, targetRow, targetCol, old(p.Tiles()[targetRow][targetCol]))
    ensures p.moveNumber >= old(p.moveNumber)
  {
    ghost var r, c, t := targetRow, targetCol, p.Tiles()[targetRow][targetCol];
    r, c := Push(p, 'd', w, ref, r, c, t);
    r, c := Push(p, across, w, ref, r, c, t);
    r, c := Push(p, 'u', w, ref, r, c, t);
  }

  /** Beside a target above the bottom row: down, then across below it. */
  method SideUnder(p: Puzzle, across: char, targetRow: int, targetCol: int, ghost w: Guard, ghost ref: Grid)
    requires Kept(p, w, ref)
    requires 0 <= targetRow < p.dim - 1 && 0 <= targetCol < p.dim
    requires p.emptyRow == targetRow && (p.emptyCol == targetCol - 1 || p.emptyCol == targetCol + 1)
    requires across == if p.emptyCol == targetCol - 1 then 'l' else 'r'
    requires Open(w, p.dim, p.emptyRow, p.emptyCol)
    requires BelowOpen(w, p.dim, p.emptyRow, p.emptyCol, targetRow, targetCol)
    modifies p, p.board
    ensures Kept(p, w, ref) && Even(p) == old(Even(p))
    ensures BelowTile(p, targetRow, targetCol, old(p.Tiles()[targetRow][targetCol]))
    ensures p.moveNumber >= old(p.moveNumber)
  {
    ghost var r, c, t := targetRow, targetCol, p.Tiles()[targetRow][targetCol];
    r, c := Push(p, 'u', w, ref, r, c, t);
    r, c := Push(p, across, w, ref, r, c, t);
  }

  /** The empty cell is on the row above a target on the bottom row. */
  method BelowFromOverBottom(p: Puzzle, targetRow: int, targetCol: int, ghost w: Guard, ghost ref: Grid)
    requires Kept(p, w, ref)
    requires targetRow == p.dim - 1 && 0 <= targetCol < p.dim
    requires p.emptyRow == targetRow - 1 && -1 <= p.emptyCol - targetCol <= 1
    requires Open(w, p.dim, p.emptyRow, p.emptyCol)
    requires BelowOpen(w, p.dim, p.emptyRow, p.emptyCol, targetRow, targetCol)
    modifies p, p.board
    ensures Kept(p, w, ref) && Even(p) == old(Even(p))
    ensures BelowTile(p, targetRow, targetCol, old(p.Tiles()[targetRow][targetCol]))
    ensures p.moveNumber >= old(p.moveNumber)
  {
    ghost var r, c, t := targetRow, targetCol, p.Tiles()[targetRow][targetCol];
    if p.emptyCol == targetCol - 1 {
      r, c := Push(p, 'l', w, ref, r, c, t);
    } else if p.emptyCol == targetCol + 1 {
      r, c := Push(p, 'r', w, ref, r, c, t);
    }
    r, c := Push(p, 'u', w, ref, r, c, t);
  }

  /** The empty cell is on the row above the target, which is not on the
      bottom row: it goes round the target, on its left when it starts on
      the left or the target is in the rightmost column, else on its right. */
  method BelowFromOver(p: Puzzle, targetRow: int, targetCol: int, ghost w: Guard, ghost ref: Grid)
    requires Kept(p, w, ref)
    requires 1 <= targetRow < p.dim - 1 && 0 <= targetCol < p.dim
    requires p.emptyRow == targetRow - 1 && -1 <= p.emptyCol - targetCol <= 1
    requires Open(w, p.dim, p.emptyRow, p.emptyCol)
    requires BelowOpen(w, p.dim, p.emptyRow, p.emptyCol, targetRow, targetCol)
    modifies p, p.board
    ensures Kept(p, w, ref) && Even(p) == old(Even(p))
    ensures BelowTile(p, targetRow, targetCol, old(p.Tiles()[targetRow][targetCol]))
    ensures p.moveNumber >= old(p.moveNumber)
  {
    if p.emptyCol == targetCol - 1 {
      AroundLeft(p, targetRow, targetCol, w, ref);
    } else if p.emptyCol == targetCol {
      AroundTop(p, targetRow, targetCol, w, ref);
    } else if p.emptyCol == targetCol + 1 {
      AroundRight(p, targetRow, targetCol, w, ref);
    }
  }

  /** From above and to the left of the target, down its left side. */
  method AroundLeft(p: Puzzle, targetRow: int, targetCol: int, ghost w: Guard, ghost ref: Grid)
    requires Kept(p, w, ref)
    requires 1 <= targetRow < p.dim - 1 && 0 <= targetCol < p.dim
    requires p.emptyRow == targetRow - 1 && p.emptyCol == targetCol - 1
    requires Open(w, p.dim, p.emptyRow, p.emptyCol)
    requires BelowOpen(w, p.dim, p.emptyRow, p.emptyCol, targetRow, targetCol)
    modifies p, p.board
    ensures Kept(p, w, ref) && Even(p) == old(Even(p))
    ensures BelowTile(p, targetRow, targetCol, old(p.Tiles()[targetRow][targetCol]))
    ensures p.moveNumber >= old(p.moveNumber)
  {
    ghost var r, c, t := targetRow, targetCol, p.Tiles()[targetRow][targetCol];
    r, c := Push(p, 'u', w, ref, r, c, t);
    r, c := Push(p, 'u', w, ref, r, c, t);
    r, c := Push(p, 'l', w, ref, r, c, t);
  }

  /** From directly above the target, round its right side, or round its
      left side when it is in the rightmost column. */
  method AroundTop(p: Puzzle, targetRow: int, targetCol: int, ghost w: Guard, ghost ref: Grid)
    requires Kept(p, w, ref)
    requires 1 <= targetRow < p.dim - 1 && 0 <= targetCol < p.dim
    requires p.emptyRow == targetRow - 1 && p.emptyCol == targetCol
    requires Open(w, p.dim, p.emptyRow, p.emptyCol)
    requires BelowOpen(w, p.dim, p.emptyRow, p.emptyCol, targetRow, targetCol)
    modifies p, p.board
    ensures Kept(p, w, ref) && Even(p) == old(Even(p))
    ensures BelowTile(p, targetRow, targetCol, old(p.Tiles()[targetRow][targetCol]))
    ensures p.moveNumber >= old(p.moveNumber)
  {
    if targetCol == p.dim - 1 {
      DownLeftSide(p, targetRow, targetCol, w, ref);
    } else {
      DownRightSide(p, targetRow, targetCol, w, ref);
    }
  }

  /** Round the left side of a target in the rightmost column. */
  method DownLeftSide(p: Puzzle, targetRow: int, targetCol: int, ghost w: Guard, ghost ref: Grid)
    requires Kept(p, w, ref)
    requires 1 <= targetRow < p.dim - 1 && targetCol == p.dim - 1
    requires p.emptyRow == targetRow - 1 && p.emptyCol == targetCol
    requires Open(w, p.dim, p.emptyRow, p.emptyCol)
    requires BelowOpen(w, p.dim, p.emptyRow, p.emptyCol, targetRow, targetCol)
    modifies p, p.board
    ensures Kept(p, w, ref) && Even(p) == old(Even(p))
    ensures BelowTile(p, targetRow, targetCol, old(p.Tiles()[targetRow][targetCol]))
    ensures p.moveNumber >= old(p.moveNumber)
  {
    ghost var r, c, t := targetRow, targetCol, p.Tiles()[targetRow][targetCol];
    r, c := Push(p, 'r', w, ref, r, c, t);
    r, c := Push(p, 'u', w, ref, r, c, t);
    r, c := Push(p, 'u', w, ref, r, c, t);
    r, c := Push(p, 'l', w, ref, r, c, t);
  }

  /** Round the right side of the target. */
  method DownRightSide(p: Puzzle, targetRow: int, targetCol: int, ghost w: Guard, ghost ref: Grid)
    requires Kept(p, w, ref)
    requires 1 <= targetRow < p.dim - 1 && 0 <= targetCol < p.dim - 1
    requires p.emptyRow == targetRow - 1 && p.emptyCol == targetCol
    requires Open(w, p.dim, p.emptyRow, p.emptyCol)
    requires BelowOpen(w, p.dim, p.emptyRow, p.emptyCol, targetRow, targetCol)
    modifies p, p.board
    ensures Kept(p, w, ref) && Even(p) == old(Even(p))
    ensures BelowTile(p, targetRow, targetCol, old(p.Tiles()[targetRow][targetCol]))
    ensures p.moveNumber >= old(p.moveNumber)
  {
    ghost var r, c, t := targetRow, targetCol, p.Tiles()[targetRow][targetCol];
    r, c := Push(p, 'l', w, ref, r, c, t);
    r, c := Push(p, 'u', w, ref, r, c, t);
    r, c := Push(p, 'u', w, ref, r, c, t);
    r, c := Push(p, 'r', w, ref, r, c, t);
  }

  /** From above and to the right of the target, down its right side. */
  method AroundRight(p: Puzzle, targetRow: int, targetCol: int, ghost w: Guard, ghost ref: Grid)
    requires Kept(p, w, ref)
    requires 1 <= targetRow < p.dim - 1 && 0 <= targetCol < p.dim
    requires p.emptyRow == targetRow - 1 && p.emptyCol == targetCol + 1
    requires Open(w, p.dim, p.emptyRow, p.emptyCol)
    requires BelowOpen(w, p.dim, p.emptyRow, p.emptyCol, targetRow, targetCol)
    modifies p, p.board
    ensures Kept(p, w, ref) && Even(p) == old(Even(p))
    ensures BelowTile(p, targetRow, targetCol, old(p.Tiles()[targetRow][targetCol]))
    ensures p.moveNumber >= old(p.moveNumber)
  {
    ghost var r, c, t := targetRow, targetCol, p.Tiles()[targetRow][targetCol];
    r, c := Push(p, 'u', w, ref, r, c, t);
    r, c := Push(p, 'u', w, ref, r, c, t);
    r, c := Push(p, 'r', w, ref, r, c, t);
  }

  // ---------------------------------------------------------------------
  // move_empty_to_right_of_target

  /** Column of the target once the empty cell is on its right: one column
      left when the target is in the rightmost column. */
  function RightCol(n: int, tc: int): int
  {
    if tc == n - 1 then tc - 1 else tc
  }

  /** The cells `move_empty_to_right_of_target` moves the empty cell
      through once it is at (er, ec), next to the target (tr, tc), are
      open. */
  ghost predicate RightOpen(w: Guard, n: int, er: int, ec: int, tr: int, tc: int)
  {
    if ec == tc + 1 then
      Open(w, n, tr, tc + 1)
    else if ec == tc then
      if tc == n - 1 then Open(w, n, er, tc - 1) && Open(w, n, tr, tc - 1) && Open(w, n, tr, tc)
      else Open(w, n, er, tc + 1) && Open(w, n, tr, tc + 1)
    else if tc == n - 1 then
      Open(w, n, tr, tc - 1) && Open(w, n, tr, tc)
    else if er == tr - 1 then
      Open(w, n, tr - 1, tc) && Open(w, n, tr - 1, tc + 1) && Open(w, n, tr, tc + 1)
    else if er == tr && tr == n - 1 then
      Open(w, n, tr - 1, tc - 1) && Open(w, n, tr - 1, tc) && Open(w, n, tr - 1, tc + 1) && Open(w, n, tr, tc + 1)
    else if er == tr then
      Open(w, n, tr + 1, tc - 1) && Open(w, n, tr + 1, tc) && Open(w, n, tr + 1, tc + 1) && Open(w, n, tr, tc + 1)
    else
      Open(w, n, tr + 1, tc) && Open(w, n, tr + 1, tc + 1) && Open(w, n, tr, tc + 1)
  }

  /** The empty cell is directly right of tile `t`, which is at (tr, tc)
      or, when (tr, tc) is in the rightmost column, one column further
      left. */
  ghost predicate RightOfTile(p: Puzzle, tr: int, tc: int, t: int)
    reads p, p.board
    requires p.Valid() && 0 <= tr < p.dim && 0 <= tc < p.dim
  {
    var c := RightCol(p.dim, tc);
    p.emptyRow == tr && p.emptyCol == c + 1 && p.Tiles()[tr][c] == t
  }

  /** `move_empty_to_right_of_target`: the empty cell goes next to the
      target, then round it to the cell on its right. The target moves, one
      column left, only when it is in the rightmost column. */
  method MoveEmptyToRightOfTarget(p: Puzzle, targetRow: int, targetCol: int, ghost w: Guard, ghost ref: Grid)
    requires Kept(p, w, ref)
    requires 0 <= targetRow < p.dim && 0 <= targetCol < p.dim
    requires (p.emptyRow, p.emptyCol) != (targetRow, targetCol)
    requires PathOpen(w, p.dim, p.emptyRow, p.emptyCol, targetRow, targetCol)
    requires RightOpen(w, p.dim, Clamp(p.emptyRow, targetRow - 1, targetRow + 1),
      Clamp(p.emptyCol, targetCol - 1, targetCol + 1), targetRow, targetCol)
    modifies p, p.board
    ensures Kept(p, w, ref) && Even(p) == old(Even(p))
    ensures RightOfTile(p, targetRow, targetCol, old(p.Tiles()[targetRow][targetCol]))
    ensures p.moveNumber >= old(p.moveNumber)
  {
    MoveEmptyToTarget(p, targetRow, targetCol, w, ref);
    assert Between(p.emptyCol, p.emptyCol, p.emptyCol) && Between(p.emptyRow, p.emptyRow, p.emptyRow);
    if p.emptyCol == targetCol + 1 {
      RightFromRight(p, targetRow, targetCol, w, ref);
    } else if p.emptyCol == targetCol {
      RightFromColumn(p, targetRow, targetCol, w, ref);
    } else if p.emptyCol == targetCol - 1 {
      if targetCol == p.dim - 1 {
        RightFromLeftEdge(p, targetRow, targetCol, w, ref);
      } else {
        RightFromLeft(p, targetRow, targetCol, w, ref);
      }
    }
  }

  /** The empty cell is in the column right of the target. */
  method RightFromRight(p: Puzzle, targetRow: int, targetCol: int, ghost w: Guard, ghost ref: Grid)
    requires Kept(p, w, ref)
    requires 0 <= targetRow < p.dim && 0 <= targetCol < p.dim - 1
    requires p.emptyCol == targetCol + 1 && -1 <= p.emptyRow - targetRow <= 1
    requires Open(w, p.dim, p.emptyRow, p.emptyCol)
    requires RightOpen(w, p.dim, p.emptyRow, p.emptyCol, targetRow, targetCol)
    modifies p, p.board
    ensures Kept(p, w, ref) && Even(p) == old(Even(p))
    ensures RightOfTile(p, targetRow, targetCol, old(p.Tiles()[targetRow][targetCol]))
    ensures p.moveNumber >= old(p.moveNumber)
  {
    ghost var t := p.Tiles()[targetRow][targetCol];
    if p.emptyRow == targetRow - 1 {
      var _, _ := Push(p, 'u', w, ref, targetRow, targetCol, t);
    } else if p.emptyRow == targetRow + 1 {
      var _, _ := Push(p, 'd', w, ref, targetRow, targetCol, t);
    }
  }

  /** The empty cell is directly above or below the target. The second
      test is not an alternative to the first: it is made again after the
      first case has moved the empty cell. */
  method RightFromColumn(p: Puzzle, targetRow: int, targetCol: int, ghost w: Guard, ghost ref: Grid)
    requires Kept(p, w, ref)
    requires 0 <= targetRow < p.dim && 0 <= targetCol < p.dim
    requires p.emptyCol == targetCol && (p.emptyRow == targetRow - 1 || p.emptyRow == targetRow + 1)
    requires Open(w, p.dim, p.emptyRow, p.emptyCol)
    requires RightOpen(w, p.dim, p.emptyRow, p.emptyCol, targetRow, targetCol)
    modifies p, p.board
    ensures Kept(p, w, ref) && Even(p) == old(Even(p))
    ensures RightOfTile(p, targetRow, targetCol, old(p.Tiles()[targetRow][targetCol]))
    ensures p.moveNumber >= old(p.moveNumber)
  {
    if p.emptyRow == targetRow - 1 {
      if targetCol == p.dim - 1 {
        ColumnEdge(p, 'u', targetRow, targetCol, w, ref);
      } else {
        ColumnInside(p, 'u', targetRow, targetCol, w, ref);
      }
    }
    if p.emptyRow == targetRow + 1 {
      if targetCol == p.dim - 1 {
        ColumnEdge(p, 'd', targetRow, targetCol, w, ref);
      } else {
        ColumnInside(p, 'd', targetRow, targetCol, w, ref);
      }
    }
  }

  /** Above or below a target in the rightmost column: left, onto the
      target's row, and right, which brings the target left. `toward` is
      the key towards the target's row. */
  method ColumnEdge(p: Puzzle, toward: char, targetRow: int, targetCol: int, ghost w: Guard, ghost ref: Grid)
    requires Kept(p, w, ref)
    requires 0 <= targetRow < p.dim && targetCol == p.dim - 1
    requires p.emptyCol == targetCol && (p.emptyRow == targetRow - 1 || p.emptyRow == targetRow + 1)
    requires toward == if p.emptyRow == targetRow - 1 then 'u' else 'd'
    requires Open(w, p.dim, p.emptyRow, p.emptyCol)
    requires RightOpen(w, p.dim, p.emptyRow, p.emptyCol, targetRow, targetCol)
    modifies p, p.board
    ensures Kept(p, w, ref) && Even(p) == old(Even(p))
    ensures RightOfTile(p, targetRow, targetCol, old(p.Tiles()[targetRow][targetCol]))
    ensures p.moveNumber >= old(p.moveNumber)
  {
    ghost var r, c, t := targetRow, targetCol, p.Tiles()[targetRow][targetCol];
    r, c := Push(p, 'r', w, ref, r, c, t);
    r, c := Push(p, toward, w, ref, r, c, t);
    r, c := Push(p, 'l', w, ref, r, c, t);
  }

  /** Above or below the target: right, then onto the target's row. */
  method ColumnInside(p: Puzzle, toward: char, targetRow: int, targetCol: int, ghost w: Guard, ghost ref: Grid)
    requires Kept(p, w, ref)
    requires 0 <= targetRow < p.dim && 0 <= targetCol < p.dim - 1
    requires p.emptyCol == targetCol && (p.emptyRow == targetRow - 1 || p.emptyRow == targetRow + 1)
    requires toward == if p.emptyRow == targetRow - 1 then 'u' else 'd'
    requires Open(w, p.dim, p.emptyRow, p.emptyCol)
    requires RightOpen(w, p.dim, p.emptyRow, p.emptyCol, targetRow, targetCol)
    modifies p, p.board
    ensures Kept(p, w, ref) && Even(p) == old(Even(p))
    ensures RightOfTile(p, targetRow, targetCol, old(p.Tiles()[targetRow][targetCol]))
    ensures p.moveNumber >= old(p.moveNumber)
  {
    ghost var r, c, t := targetRow, targetCol, p.Tiles()[targetRow][targetCol];
    r, c := Push(p, 'l', w, ref, r, c, t);
    r, c := Push(p, toward, w, ref, r, c, t);
  }

  /** The empty cell is in the column left of a target in the rightmost
      column: onto the target's row, then right, which brings the target
      left. */
  method RightFromLeftEdge(p: Puzzle, targetRow: int, targetCol: int, ghost w: Guard, ghost ref: Grid)
    requires Kept(p, w, ref)
    requires 0 <= targetRow < p.dim && targetCol == p.dim - 1
    requires p.emptyCol == targetCol - 1 && -1 <= p.emptyRow - targetRow <= 1
    requires Open(w, p.dim, p.emptyRow, p.emptyCol)
    requires RightOpen(w, p.dim, p.emptyRow, p.emptyCol, targetRow, targetCol)
    modifies p, p.board
    ensures Kept(p, w, ref) && Even(p) == old(Even(p))
    ensures RightOfTile(p, targetRow, targetCol, old(p.Tiles()[targetRow][targetCol]))
    ensures p.moveNumber >= old(p.moveNumber)
  {
    ghost var r, c, t := targetRow, targetCol, p.Tiles()[targetRow][targetCol];
    if p.emptyRow == targetRow - 1 {
      r, c := Push(p, 'u', w, ref, r, c, t);
    } else if p.emptyRow == targetRow + 1 {
      r, c := Push(p, 'd', w, ref, r, c, t);
    }
    r, c := Push(p, 'l', w, ref, r, c, t);
  }

  /** The empty cell is in the column left of the target, which is not in
      the rightmost column: it goes round the target, over it when it
      starts above or the target is on the bottom row, else under it. */
  method RightFromLeft(p: Puzzle, targetRow: int, targetCol: int, ghost w: Guard, ghost ref: Grid)
    requires Kept(p, w, ref)
    requires 0 <= targetRow < p.dim && 0 <= targetCol < p.dim - 1
    requires p.emptyCol == targetCol - 1 && -1 <= p.emptyRow - targetRow <= 1
    requires Open(w, p.dim, p.emptyRow, p.emptyCol)
    requires RightOpen(w, p.dim, p.emptyRow, p.emptyCol, targetRow, targetCol)
    modifies p, p.board
    ensures Kept(p, w, ref) && Even(p) == old(Even(p))
    ensures RightOfTile(p, targetRow, targetCol, old(p.Tiles()[targetRow][targetCol]))
    ensures p.moveNumber >= old(p.moveNumber)
  {
    if p.emptyRow == targetRow - 1 {
      LeftAbove(p, targetRow, targetCol, w, ref);
    } else if p.emptyRow == targetRow {
      if targetRow == p.dim - 1 {
        LeftBesideOver(p, targetRow, targetCol, w, ref);
      } else {
        LeftBesideUnder(p, targetRow, targetCol, w, ref);
      }
    } else if p.emptyRow == targetRow + 1 {
      LeftBelow(p, targetRow, targetCol, w, ref);
    }
  }

  /** From above and to the left of the target, along the row above it. */
  method LeftAbove(p: Puzzle, targetRow: int, targetCol: int, ghost w: Guard, ghost ref: Grid)
    requires Kept(p, w, ref)
    requires 1 <= targetRow < p.dim && 0 <= targetCol < p.dim - 1
    requires p.emptyCol == targetCol - 1 && p.emptyRow == targetRow - 1
    requires Open(w, p.dim, p.emptyRow, p.emptyCol)
    requires RightOpen(w, p.dim, p.emptyRow, p.emptyCol, targetRow, targetCol)
    modifies p, p.board
    ensures Kept(p, w, ref) && Even(p) == old(Even(p))
    ensures RightOfTile(p, targetRow, targetCol, old(p.Tiles()[targetRow][targetCol]))
    ensures p.moveNumber >= old(p.moveNumber)
  {
    ghost var r, c, t := targetRow, targetCol, p.Tiles()[targetRow][targetCol];
    r, c := Push(p, 'l', w, ref, r, c, t);
    r, c := Push(p, 'l', w, ref, r, c, t);
    r, c := Push(p, 'u', w, ref, r, c, t);
  }

  /** From the left of a target on the bottom row, over it. */
  method LeftBesideOver(p: Puzzle, targetRow: int, targetCol: int, ghost w: Guard, ghost ref: Grid)
    requires Kept(p, w, ref)
    requires targetRow == p.dim - 1 && 0 <= targetCol < p.dim - 1
    requires p.emptyCol == targetCol - 1 && p.emptyRow == targetRow
    requires Open(w, p.dim, p.emptyRow, p.emptyCol)
    requires RightOpen(w, p.dim, p.emptyRow, p.emptyCol, targetRow, targetCol)
    modifies p, p.board
    ensures Kept(p, w, ref) && Even(p) == old(Even(p))
    ensures RightOfTile(p, targetRow, targetCol, old(p.Tiles()[targetRow][targetCol]))
    ensures p.moveNumber >= old(p.moveNumber)
  {
    ghost var r, c, t := targetRow, targetCol, p.Tiles()[targetRow][targetCol];
    r, c := Push(p, 'd', w, ref, r, c, t);
    r, c := Push(p, 'l', w, ref, r, c, t);
    r, c := Push(p, 'l', w, ref, r, c, t);
    r, c := Push(p, 'u', w, ref, r, c, t);
  }

  /** From the left of the target, under it. */
  method LeftBesideUnder(p: Puzzle, targetRow: int, targetCol: int, ghost w: Guard, ghost ref: Grid)
    requires Kept(p, w, ref)
    requires 0 <= targetRow < p.dim - 1 && 0 <= targetCol < p.dim - 1
    requires p.emptyCol == targetCol - 1 && p.emptyRow == targetRow
    requires Open(w, p.dim, p.emptyRow, p.emptyCol)
    requires RightOpen(w, p.dim, p.emptyRow, p.emptyCol, targetRow, targetCol)
    modifies p, p.board
    ensures Kept(p, w, ref) && Even(p) == old(Even(p))
    ensures RightOfTile(p, targetRow, targetCol, old(p.Tiles()[targetRow][targetCol]))
    ensures p.moveNumber >= old(p.moveNumber)
  {
    ghost var r, c, t := targetRow, targetCol, p.Tiles()[targetRow][targetCol];
    r, c := Push(p, 'u', w, ref, r, c, t);
    r, c := Push(p, 'l', w, ref, r, c, t);
    r, c := Push(p, 'l', w, ref, r, c, t);
    r, c := Push(p, 'd', w, ref, r, c, t);
  }

  /** From below and to the left of the target, along the row below it. */
  method LeftBelow(p: Puzzle, targetRow: int, targetCol: int, ghost w: Guard, ghost ref: Grid)
    requires Kept(p, w, ref)
    requires 0 <= targetRow < p.dim - 1 && 0 <= targetCol < p.dim - 1
    requires p.emptyCol == targetCol - 1 && p.emptyRow == targetRow + 1
    requires Open(w, p.dim, p.emptyRow, p.emptyCol)
    requires RightOpen(w, p.dim, p.emptyRow, p.emptyCol, targetRow, targetCol)
    modifies p, p.board
    ensures Kept(p, w, ref) && Even(p) == old(Even(p))
    ensures RightOfTile(p, targetRow, targetCol, old(p.Tiles()[targetRow][targetCol]))
    ensures p.moveNumber >= old(p.moveNumber)
  {
    ghost var r, c, t := targetRow, targetCol, p.Tiles()[targetRow][targetCol];
    r, c := Push(p, 'l', w, ref, r, c, t);
    r, c := Push(p, 'l', w, ref, r, c, t);
    r, c := Push(p, 'd', w, ref, r, c, t);
  }

  // ---------------------------------------------------------------------
  // move_target_to_row and move_target_to_col

  /** The search at the head of `move_target_to_row` and
      `move_target_to_col`: the first cell, row by row, that holds `tile`.
      On a hit the search sets both counters to `dim`, which ends both
      loops. */
  method LocateTile(p: Puzzle, tile: int) returns (row: int, col: int)
    requires p.Valid()
    requires exists r, c :: 0 <= r < p.dim && 0 <= c < p.dim && p.board[r, c] == tile
    ensures 0 <= row < p.dim && 0 <= col < p.dim && p.board[row, col] == tile
    ensures forall r, c :: 0 <= r < p.dim && 0 <= c < p.dim && (r < row || (r == row && c < col)) ==> p.board[r, c] != tile
  {
    row, col := -1, -1;
    var r := 0;
    while r < p.dim
      invariant 0 <= r <= p.dim + 1
      invariant row == -1 ==> r <= p.dim && forall i, j :: 0 <= i < r && 0 <= j < p.dim ==> p.board[i, j] != tile
      invariant row != -1 ==> r == p.dim + 1 && 0 <= row < p.dim && 0 <= col < p.dim && p.board[row, col] == tile
      invariant row != -1 ==> forall i, j :: 0 <= i < p.dim && 0 <= j < p.dim && (i < row || (i == row && j < col)) ==> p.board[i, j] != tile
      decreases p.dim + 1 - r
    {
      ghost var r0 := r;
      var c := 0;
      while c < p.dim
        invariant 0 <= c <= p.dim + 1
        invariant row == -1 ==> r == r0 && c <= p.dim
        invariant row == -1 ==> forall i, j :: 0 <= i < p.dim && 0 <= j < p.dim && (i < r || (i == r && j < c)) ==> p.board[i, j] != tile
        invariant row != -1 ==> r == p.dim && c == p.dim + 1 && 0 <= row < p.dim && 0 <= col < p.dim && p.board[row, col] == tile
        invariant row != -1 ==> forall i, j :: 0 <= i < p.dim && 0 <= j < p.dim && (i < row || (i == row && j < col)) ==> p.board[i, j] != tile
      {
        if p.board[r, c] == tile {
          row, col := r, c;
          r, c := p.dim, p.dim;
        }
        c := c + 1;
      }
      r := r + 1;
    }
  }

  /** The cells `move_target_to_row` moves the empty cell through, for a
      target at (tr, tc) and the empty cell at (er, ec), are open: the
      path next to the target, the way round it to its right, and the two
      columns the target and the empty cell then climb or descend. */
  ghost predicate RowPlanOpen(w: Guard, n: int, er: int, ec: int, tr: int, tc: int, dest: int)
  {
    var c := RightCol(n, tc);
    PathOpen(w, n, er, ec, tr, tc) &&
    RightOpen(w, n, Clamp(er, tr - 1, tr + 1), Clamp(ec, tc - 1, tc + 1), tr, tc) &&
    StripOpen(w, n, tr, dest, c)
  }

  /** Columns c and c + 1 are open in every row from a to b. */
  ghost predicate StripOpen(w: Guard, n: int, a: int, b: int, c: int)
  {
    forall r :: Between(r, a, b) ==> Open(w, n, r, c) && Open(w, n, r, c + 1)
  }

  /** Two rows of an open strip: both columns are open in each. */
  lemma StripCells(w: Guard, n: int, a: int, b: int, c: int, x: int, y: int)
    requires StripOpen(w, n, a, b, c) && Between(x, a, b) && Between(y, a, b)
    ensures Open(w, n, x, c) && Open(w, n, x, c + 1) && Open(w, n, y, c) && Open(w, n, y, c + 1)
  {
  }

  /** Tile `t` is at (dest, c) and the empty cell in the same column, on
      the row the tile came from: above it after moving down, below it
      after moving up. */
  ghost predicate AtRow(p: Puzzle, c: int, dest: int, up: bool, t: int)
    reads p, p.board
    requires p.Valid() && 0 <= c < p.dim && 0 <= dest < p.dim
  {
    p.Tiles()[dest][c] == t && p.emptyCol == c && p.emptyRow == if up then dest + 1 else dest - 1
  }

  /** Slides 'u', 'r', 'd' with the empty cell right of tile `t`: the tile
      goes one row down and the empty cell takes its old cell. */
  method CycleDown(p: Puzzle, ghost r: int, ghost c: int, ghost w: Guard, ghost ref: Grid, ghost t: int)
    requires Kept(p, w, ref)
    requires 0 <= r < p.dim - 1 && 0 <= c < p.dim - 1
    requires p.emptyRow == r && p.emptyCol == c + 1 && p.Tiles()[r][c] == t
    requires Open(w, p.dim, r, c + 1) && Open(w, p.dim, r + 1, c + 1) && Open(w, p.dim, r + 1, c) && Open(w, p.dim, r, c)
    modifies p, p.board
    ensures Kept(p, w, ref) && Even(p) == old(Even(p)) && p.moveNumber >= old(p.moveNumber)
    ensures p.emptyRow == r && p.emptyCol == c && p.Tiles()[r + 1][c] == t
  {
    ghost var tr, tc := r, c;
    tr, tc := Push(p, 'u', w, ref, tr, tc, t);
    tr, tc := Push(p, 'r', w, ref, tr, tc, t);
    tr, tc := Push(p, 'd', w, ref, tr, tc, t);
  }

  /** Slides 'l', 'u' with the empty cell above tile `t`: the empty cell
      goes back to the tile's right. */
  method ReturnDown(p: Puzzle, ghost r: int, ghost c: int, ghost w: Guard, ghost ref: Grid, ghost t: int)
    requires Kept(p, w, ref)
    requires 0 <= r < p.dim - 1 && 0 <= c < p.dim - 1
    requires p.emptyRow == r && p.emptyCol == c && p.Tiles()[r + 1][c] == t
    requires Open(w, p.dim, r, c) && Open(w, p.dim, r, c + 1) && Open(w, p.dim, r + 1, c + 1)
    modifies p, p.board
    ensures Kept(p, w, ref) && Even(p) == old(Even(p)) && p.moveNumber >= old(p.moveNumber)
    ensures p.emptyRow == r + 1 && p.emptyCol == c + 1 && p.Tiles()[r + 1][c] == t
  {
    ghost var tr, tc := r + 1, c;
    tr, tc := Push(p, 'l', w, ref, tr, tc, t);
    tr, tc := Push(p, 'u', w, ref, tr, tc, t);
  }
  /** One round of the downward loop: the cycle, then, but for the last
      round, the return of the empty cell. */
  method RoundDown(p: Puzzle, ghost r: int, ghost c: int, ghost w: Guard, ghost ref: Grid, ghost t: int, last: bool)
    requires Kept(p, w, ref)
    requires 0 <= r < p.dim - 1 && 0 <= c < p.dim - 1
    requires p.emptyRow == r && p.emptyCol == c + 1 && p.Tiles()[r][c] == t
    requires Open(w, p.dim, r, c + 1) && Open(w, p.dim, r + 1, c + 1) && Open(w, p.dim, r + 1, c) && Open(w, p.dim, r, c)
    modifies p, p.board
    ensures Kept(p, w, ref) && Even(p) == old(Even(p)) && p.moveNumber >= old(p.moveNumber)
    ensures p.Tiles()[r + 1][c] == t
    ensures (p.emptyRow, p.emptyCol) == if last then (r, c) else (r + 1, c + 1)
  {
    CycleDown(p, r, c, w, ref, t);
    if !last {
      ReturnDown(p, r, c, w, ref, t);
    }
  }


  /** Slides 'd', 'r', 'u' with the empty cell right of tile `t`: the tile
      goes one row up and the empty cell takes its old cell. */
  method CycleUp(p: Puzzle, ghost r: int, ghost c: int, ghost w: Guard, ghost ref: Grid, ghost t: int)
    requires Kept(p, w, ref)
    requires 1 <= r < p.dim && 0 <= c < p.dim - 1
    requires p.emptyRow == r && p.emptyCol == c + 1 && p.Tiles()[r][c] == t
    requires Open(w, p.dim, r, c + 1) && Open(w, p.dim, r - 1, c + 1) && Open(w, p.dim, r - 1, c) && Open(w, p.dim, r, c)
    modifies p, p.board
    ensures Kept(p, w, ref) && Even(p) == old(Even(p)) && p.moveNumber >= old(p.moveNumber)
    ensures p.emptyRow == r && p.emptyCol == c && p.Tiles()[r - 1][c] == t
  {
    ghost var tr, tc := r, c;
    tr, tc := Push(p, 'd', w, ref, tr, tc, t);
    tr, tc := Push(p, 'r', w, ref, tr, tc, t);
    tr, tc := Push(p, 'u', w, ref, tr, tc, t);
  }

  /** Slides 'l', 'd' with the empty cell below tile `t`: the empty cell
      goes back to the tile's right. */
  method ReturnUp(p: Puzzle, ghost r: int, ghost c: int, ghost w: Guard, ghost ref: Grid, ghost t: int)
    requires Kept(p, w, ref)
    requires 1 <= r < p.dim && 0 <= c < p.dim - 1
    requires p.emptyRow == r && p.emptyCol == c && p.Tiles()[r - 1][c] == t
    requires Open(w, p.dim, r, c) && Open(w, p.dim, r, c + 1) && Open(w, p.dim, r - 1, c + 1)
    modifies p, p.board
    ensures Kept(p, w, ref) && Even(p) == old(Even(p)) && p.moveNumber >= old(p.moveNumber)
    ensures p.emptyRow == r - 1 && p.emptyCol == c + 1 && p.Tiles()[r - 1][c] == t
  {
    ghost var tr, tc := r - 1, c;
    tr, tc := Push(p, 'l', w, ref, tr, tc, t);
    tr, tc := Push(p, 'd', w, ref, tr, tc, t);
  }
  /** One round of the upward loop: the cycle, then, but for the last
      round, the return of the empty cell. */
  method RoundUp(p: Puzzle, ghost r: int, ghost c: int, ghost w: Guard, ghost ref: Grid, ghost t: int, last: bool)
    requires Kept(p, w, ref)
    requires 1 <= r < p.dim && 0 <= c < p.dim - 1
    requires p.emptyRow == r && p.emptyCol == c + 1 && p.Tiles()[r][c] == t
    requires Open(w, p.dim, r, c + 1) && Open(w, p.dim, r - 1, c + 1) && Open(w, p.dim, r - 1, c) && Open(w, p.dim, r, c)
    modifies p, p.board
    ensures Kept(p, w, ref) && Even(p) == old(Even(p)) && p.moveNumber >= old(p.moveNumber)
    ensures p.Tiles()[r - 1][c] == t
    ensures (p.emptyRow, p.emptyCol) == if last then (r, c) else (r - 1, c + 1)
  {
    CycleUp(p, r, c, w, ref, t);
    if !last {
      ReturnUp(p, r, c, w, ref, t);
    }
  }


  /** `move_target_to_row`: the tile, found on the board, reaches the
      destination row in its own column, or one column left when it starts
      in the rightmost column; the empty cell ends next to it on the side
      it came from. A tile already on that row stays where it is and
      nothing moves. */
  method MoveTargetToRow(p: Puzzle, targetTile: int, destinationRow: int, ghost w: Guard, ghost ref: Grid, ghost tr: int, ghost tc: int)
    requires Kept(p, w, ref)
    requires 0 <= tr < p.dim && 0 <= tc < p.dim && p.Tiles()[tr][tc] == targetTile && targetTile != 0
    requires 0 <= destinationRow < p.dim
    requires destinationRow != tr ==> RowPlanOpen(w, p.dim, p.emptyRow, p.emptyCol, tr, tc, destinationRow)
    modifies p, p.board
    ensures Kept(p, w, ref) && Even(p) == old(Even(p)) && p.moveNumber >= old(p.moveNumber)
    ensures destinationRow != tr ==> AtRow(p, RightCol(p.dim, tc), destinationRow, destinationRow < tr, targetTile)
    ensures destinationRow == tr ==> p.Tiles() == old(p.Tiles()) && (p.emptyRow, p.emptyCol) == old((p.emptyRow, p.emptyCol))
  {
    assert p.board[tr, tc] == targetTile;
    var targetRow, targetCol := LocateTile(p, targetTile);
    CellsDistinct(p.Tiles(), p.dim, p.emptyRow, p.emptyCol, targetRow, targetCol, tr, tc);
    var numRows := destinationRow - targetRow;
    if numRows == 0 {
      return;
    }
    assert targetRow == tr && targetCol == tc;
    CarryToRow(p, targetRow, targetCol, numRows, w, ref, targetTile, destinationRow);
  }

  /** The moving part of `move_target_to_row` once the tile is found at
      (targetRow, targetCol) and has `numRows` rows to go: the empty cell
      goes to the tile's right, then the downward or upward loop runs. */
  method CarryToRow(p: Puzzle, targetRow: int, targetCol: int, numRows: int, ghost w: Guard, ghost ref: Grid, ghost t: int, ghost dest: int)
    requires Kept(p, w, ref)
    requires 0 <= targetRow < p.dim && 0 <= targetCol < p.dim && p.Tiles()[targetRow][targetCol] == t && t != 0
    requires numRows != 0 && 0 <= dest < p.dim && dest == targetRow + numRows
    requires RowPlanOpen(w, p.dim, p.emptyRow, p.emptyCol, targetRow, targetCol, dest)
    modifies p, p.board
    ensures Kept(p, w, ref) && Even(p) == old(Even(p)) && p.moveNumber >= old(p.moveNumber)
    ensures AtRow(p, RightCol(p.dim, targetCol), dest, numRows < 0, t)
  {
    MoveEmptyToRightOfTarget(p, targetRow, targetCol, w, ref);
    if numRows > 0 {
      ShiftDown(p, numRows, targetRow, RightCol(p.dim, targetCol), w, ref, t, dest);
    } else {
      ShiftUp(p, -numRows, targetRow, RightCol(p.dim, targetCol), w, ref, t, dest);
    }
  }

  /** The downward loop of `move_target_to_row`: `numRows` rounds of
      'u', 'r', 'd', each followed, but for the last, by 'l', 'u'. */
  method ShiftDown(p: Puzzle, numRows: int, ghost r: int, ghost c: int, ghost w: Guard, ghost ref: Grid, ghost t: int, ghost dest: int)
    requires Kept(p, w, ref)
    requires 0 < numRows && 0 <= r && dest == r + numRows && dest < p.dim && 0 <= c < p.dim - 1
    requires p.emptyRow == r && p.emptyCol == c + 1 && p.Tiles()[r][c] == t
    requires StripOpen(w, p.dim, r, dest, c)
    modifies p, p.board
    ensures Kept(p, w, ref) && Even(p) == old(Even(p)) && p.moveNumber >= old(p.moveNumber)
    ensures AtRow(p, c, dest, false, t)
  {
    for i := 0 to numRows
      invariant i < numRows
      invariant Kept(p, w, ref) && Even(p) == old(Even(p)) && p.moveNumber >= old(p.moveNumber)
      invariant p.emptyRow == r + i && p.emptyCol == c + 1 && p.Tiles()[r + i][c] == t
    {
      StripCells(w, p.dim, r, dest, c, r + i, r + i + 1);
      RoundDown(p, r + i, c, w, ref, t, i == numRows - 1);
      if i == numRows - 1 {
        break;
      }
    }
  }

  /** The upward loop of `move_target_to_row`: `numRows` rounds of
      'd', 'r', 'u', each followed, but for the last, by 'l', 'd'. */
  method ShiftUp(p: Puzzle, numRows: int, ghost r: int, ghost c: int, ghost w: Guard, ghost ref: Grid, ghost t: int, ghost dest: int)
    requires Kept(p, w, ref)
    requires 0 < numRows && r < p.dim && dest == r - numRows && 0 <= dest && 0 <= c < p.dim - 1
    requires p.emptyRow == r && p.emptyCol == c + 1 && p.Tiles()[r][c] == t
    requires StripOpen(w, p.dim, r, dest, c)
    modifies p, p.board
    ensures Kept(p, w, ref) && Even(p) == old(Even(p)) && p.moveNumber >= old(p.moveNumber)
    ensures AtRow(p, c, dest, true, t)
  {
    for i := 0 to numRows
      invariant i < numRows
      invariant Kept(p, w, ref) && Even(p) == old(Even(p)) && p.moveNumber >= old(p.moveNumber)
      invariant p.emptyRow == r - i && p.emptyCol == c + 1 && p.Tiles()[r - i][c] == t
    {
      StripCells(w, p.dim, r, dest, c, r - i, r - i - 1);
      RoundUp(p, r - i, c, w, ref, t, i == numRows - 1);
      if i == numRows - 1 {
        break;
      }
    }
  }

  /** The cells `move_target_to_col` moves the empty cell through, for a
      target at (tr, tc) and the empty cell at (er, ec), are open: the
      path next to the target, the way round it to below it, and the two
      rows the target and the empty cell then travel along. */
  ghost predicate ColPlanOpen(w: Guard, n: int, er: int, ec: int, tr: int, tc: int, dest: int)
  {
    PathOpen(w, n, er, ec, tr, tc) &&
    BelowOpen(w, n, Clamp(er, tr - 1, tr + 1), Clamp(ec, tc - 1, tc + 1), tr, tc) &&
    BandOpen(w, n, tc, dest, BelowRow(n, tr))
  }

  /** Rows r and r + 1 are open in every column from a to b. */
  ghost predicate BandOpen(w: Guard, n: int, a: int, b: int, r: int)
  {
    forall c :: Between(c, a, b) ==> Open(w, n, r, c) && Open(w, n, r + 1, c)
  }

  /** Two columns of an open band: both rows are open in each. */
  lemma BandCells(w: Guard, n: int, a: int, b: int, r: int, x: int, y: int)
    requires BandOpen(w, n, a, b, r) && Between(x, a, b) && Between(y, a, b)
    ensures Open(w, n, r, x) && Open(w, n, r + 1, x) && Open(w, n, r, y) && Open(w, n, r + 1, y)
  {
  }

  /** Tile `t` is at (r, dest) and the empty cell on the same row, in the
      column the tile came from: left of it after moving right, right of
      it after moving left. */
  ghost predicate AtCol(p: Puzzle, r: int, dest: int, left: bool, t: int)
    reads p, p.board
    requires p.Valid() && 0 <= r < p.dim && 0 <= dest < p.dim
  {
    p.Tiles()[r][dest] == t && p.emptyRow == r && p.emptyCol == if left then dest + 1 else dest - 1
  }

  /** Slides 'l', 'd', 'r' with the empty cell below tile `t`: the tile
      goes one column right and the empty cell takes its old cell. */
  method CycleRight(p: Puzzle, ghost r: int, ghost c: int, ghost w: Guard, ghost ref: Grid, ghost t: int)
    requires Kept(p, w, ref)
    requires 0 <= r < p.dim - 1 && 0 <= c < p.dim - 1
    requires p.emptyRow == r + 1 && p.emptyCol == c && p.Tiles()[r][c] == t
    requires Open(w, p.dim, r + 1, c) && Open(w, p.dim, r + 1, c + 1) && Open(w, p.dim, r, c + 1) && Open(w, p.dim, r, c)
    modifies p, p.board
    ensures Kept(p, w, ref) && Even(p) == old(Even(p)) && p.moveNumber >= old(p.moveNumber)
    ensures p.emptyRow == r && p.emptyCol == c && p.Tiles()[r][c + 1] == t
  {
    ghost var tr, tc := r, c;
    tr, tc := Push(p, 'l', w, ref, tr, tc, t);
    tr, tc := Push(p, 'd', w, ref, tr, tc, t);
    tr, tc := Push(p, 'r', w, ref, tr, tc, t);
  }

  /** Slides 'u', 'l' with the empty cell left of tile `t`: the empty cell
      goes back below the tile. */
  method ReturnRight(p: Puzzle, ghost r: int, ghost c: int, ghost w: Guard, ghost ref: Grid, ghost t: int)
    requires Kept(p, w, ref)
    requires 0 <= r < p.dim - 1 && 0 <= c < p.dim - 1
    requires p.emptyRow == r && p.emptyCol == c && p.Tiles()[r][c + 1] == t
    requires Open(w, p.dim, r, c) && Open(w, p.dim, r + 1, c) && Open(w, p.dim, r + 1, c + 1)
    modifies p, p.board
    ensures Kept(p, w, ref) && Even(p) == old(Even(p)) && p.moveNumber >= old(p.moveNumber)
    ensures p.emptyRow == r + 1 && p.emptyCol == c + 1 && p.Tiles()[r][c + 1] == t
  {
    ghost var tr, tc := r, c + 1;
    tr, tc := Push(p, 'u', w, ref, tr, tc, t);
    tr, tc := Push(p, 'l', w, ref, tr, tc, t);
  }
  /** One round of the rightward loop: the cycle, then, but for the last
      round, the return of the empty cell. */
  method RoundRight(p: Puzzle, ghost r: int, ghost c: int, ghost w: Guard, ghost ref: Grid, ghost t: int, last: bool)
    requires Kept(p, w, ref)
    requires 0 <= r < p.dim - 1 && 0 <= c < p.dim - 1
    requires p.emptyRow == r + 1 && p.emptyCol == c && p.Tiles()[r][c] == t
    requires Open(w, p.dim, r + 1, c) && Open(w, p.dim, r + 1, c + 1) && Open(w, p.dim, r, c + 1) && Open(w, p.dim, r, c)
    modifies p, p.board
    ensures Kept(p, w, ref) && Even(p) == old(Even(p)) && p.moveNumber >= old(p.moveNumber)
    ensures p.Tiles()[r][c + 1] == t
    ensures (p.emptyRow, p.emptyCol) == if last then (r, c) else (r + 1, c + 1)
  {
    CycleRight(p, r, c, w, ref, t);
    if !last {
      ReturnRight(p, r, c, w, ref, t);
    }
  }


  /** Slides 'r', 'd', 'l' with the empty cell below tile `t`: the tile
      goes one column left and the empty cell takes its old cell. */
  method CycleLeft(p: Puzzle, ghost r: int, ghost c: int, ghost w: Guard, ghost ref: Grid, ghost t: int)
    requires Kept(p, w, ref)
    requires 0 <= r < p.dim - 1 && 1 <= c < p.dim
    requires p.emptyRow == r + 1 && p.emptyCol == c && p.Tiles()[r][c] == t
    requires Open(w, p.dim, r + 1, c) && Open(w, p.dim, r + 1, c - 1) && Open(w, p.dim, r, c - 1) && Open(w, p.dim, r, c)
    modifies p, p.board
    ensures Kept(p, w, ref) && Even(p) == old(Even(p)) && p.moveNumber >= old(p.moveNumber)
    ensures p.emptyRow == r && p.emptyCol == c && p.Tiles()[r][c - 1] == t
  {
    ghost var tr, tc := r, c;
    tr, tc := Push(p, 'r', w, ref, tr, tc, t);
    tr, tc := Push(p, 'd', w, ref, tr, tc, t);
    tr, tc := Push(p, 'l', w, ref, tr, tc, t);
  }

  /** Slides 'u', 'r' with the empty cell right of tile `t`: the empty
      cell goes back below the tile. */
  method ReturnLeft(p: Puzzle, ghost r: int, ghost c: int, ghost w: Guard, ghost ref: Grid, ghost t: int)
    requires Kept(p, w, ref)
    requires 0 <= r < p.dim - 1 && 1 <= c < p.dim
    requires p.emptyRow == r && p.emptyCol == c && p.Tiles()[r][c - 1] == t
    requires Open(w, p.dim, r, c) && Open(w, p.dim, r + 1, c) && Open(w, p.dim, r + 1, c - 1)
    modifies p, p.board
    ensures Kept(p, w, ref) && Even(p) == old(Even(p)) && p.moveNumber >= old(p.moveNumber)
    ensures p.emptyRow == r + 1 && p.emptyCol == c - 1 && p.Tiles()[r][c - 1] == t
  {
    ghost var tr, tc := r, c - 1;
    tr, tc := Push(p, 'u', w, ref, tr, tc, t);
    tr, tc := Push(p, 'r', w, ref, tr, tc, t);
  }
  /** One round of the leftward loop: the cycle, then, but for the last
      round, the return of the empty cell. */
  method RoundLeft(p: Puzzle, ghost r: int, ghost c: int, ghost w: Guard, ghost ref: Grid, ghost t: int, last: bool)
    requires Kept(p, w, ref)
    requires 0 <= r < p.dim - 1 && 1 <= c < p.dim
    requires p.emptyRow == r + 1 && p.emptyCol == c && p.Tiles()[r][c] == t
    requires Open(w, p.dim, r + 1, c) && Open(w, p.dim, r + 1, c - 1) && Open(w, p.dim, r, c - 1) && Open(w, p.dim, r, c)
    modifies p, p.board
    ensures Kept(p, w, ref) && Even(p) == old(Even(p)) && p.moveNumber >= old(p.moveNumber)
    ensures p.Tiles()[r][c - 1] == t
    ensures (p.emptyRow, p.emptyCol) == if last then (r, c) else (r + 1, c - 1)
  {
    CycleLeft(p, r, c, w, ref, t);
    if !last {
      ReturnLeft(p, r, c, w, ref, t);
    }
  }


  /** `move_target_to_col`: the tile, found on the board, reaches the
      destination column in its own row, or one row up when it starts on
      the bottom row; the empty cell ends next to it on the side it came
      from. A tile already in that column stays where it is and nothing
      moves. */
  method MoveTargetToCol(p: Puzzle, targetTile: int, destinationCol: int, ghost w: Guard, ghost ref: Grid, ghost tr: int, ghost tc: int)
    requires Kept(p, w, ref)
    requires 0 <= tr < p.dim && 0 <= tc < p.dim && p.Tiles()[tr][tc] == targetTile && targetTile != 0
    requires 0 <= destinationCol < p.dim
    requires destinationCol != tc ==> ColPlanOpen(w, p.dim, p.emptyRow, p.emptyCol, tr, tc, destinationCol)
    modifies p, p.board
    ensures Kept(p, w, ref) && Even(p) == old(Even(p)) && p.moveNumber >= old(p.moveNumber)
    ensures destinationCol != tc ==> AtCol(p, BelowRow(p.dim, tr), destinationCol, destinationCol < tc, targetTile)
    ensures destinationCol == tc ==> p.Tiles() == old(p.Tiles()) && (p.emptyRow, p.emptyCol) == old((p.emptyRow, p.emptyCol))
  {
    assert p.board[tr, tc] == targetTile;
    var targetRow, targetCol := LocateTile(p, targetTile);
    CellsDistinct(p.Tiles(), p.dim, p.emptyRow, p.emptyCol, targetRow, targetCol, tr, tc);
    var numCols := destinationCol - targetCol;
    if numCols == 0 {
      return;
    }
    assert targetRow == tr && targetCol == tc;
    CarryToCol(p, targetRow, targetCol, numCols, w, ref, targetTile, destinationCol);
  }

  /** The moving part of `move_target_to_col` once the tile is found at
      (targetRow, targetCol) and has `numCols` columns to go: the empty
      cell goes below the tile, then the rightward or leftward loop runs. */
  method CarryToCol(p: Puzzle, targetRow: int, targetCol: int, numCols: int, ghost w: Guard, ghost ref: Grid, ghost t: int, ghost dest: int)
    requires Kept(p, w, ref)
    requires 0 <= targetRow < p.dim && 0 <= targetCol < p.dim && p.Tiles()[targetRow][targetCol] == t && t != 0
    requires numCols != 0 && 0 <= dest < p.dim && dest == targetCol + numCols
    requires ColPlanOpen(w, p.dim, p.emptyRow, p.emptyCol, targetRow, targetCol, dest)
    modifies p, p.board
    ensures Kept(p, w, ref) && Even(p) == old(Even(p)) && p.moveNumber >= old(p.moveNumber)
    ensures AtCol(p, BelowRow(p.dim, targetRow), dest, numCols < 0, t)
  {
    MoveEmptyToBelowTarget(p, targetRow, targetCol, w, ref);
    if numCols > 0 {
      ShiftRight(p, numCols, BelowRow(p.dim, targetRow), targetCol, w, ref, t, dest);
    } else {
      ShiftLeft(p, -numCols, BelowRow(p.dim, targetRow), targetCol, w, ref, t, dest);
    }
  }

  /** The rightward loop of `move_target_to_col`: `numCols` rounds of
      'l', 'd', 'r', each followed, but for the last, by 'u', 'l'. */
  method ShiftRight(p: Puzzle, numCols: int, ghost r: int, ghost c: int, ghost w: Guard, ghost ref: Grid, ghost t: int, ghost dest: int)
    requires Kept(p, w, ref)
    requires 0 < numCols && 0 <= c && dest == c + numCols && dest < p.dim && 0 <= r < p.dim - 1
    requires p.emptyRow == r + 1 && p.emptyCol == c && p.Tiles()[r][c] == t
    requires BandOpen(w, p.dim, c, dest, r)
    modifies p, p.board
    ensures Kept(p, w, ref) && Even(p) == old(Even(p)) && p.moveNumber >= old(p.moveNumber)
    ensures AtCol(p, r, dest, false, t)
  {
    for i := 0 to numCols
      invariant i < numCols
      invariant Kept(p, w, ref) && Even(p) == old(Even(p)) && p.moveNumber >= old(p.moveNumber)
      invariant p.emptyRow == r + 1 && p.emptyCol == c + i && p.Tiles()[r][c + i] == t
    {
      BandCells(w, p.dim, c, dest, r, c + i, c + i + 1);
      RoundRight(p, r, c + i, w, ref, t, i == numCols - 1);
      if i == numCols - 1 {
        break;
      }
    }
  }

  /** The leftward loop of `move_target_to_col`: `numCols` rounds of
      'r', 'd', 'l', each followed, but for the last, by 'u', 'r'. */
  method ShiftLeft(p: Puzzle, numCols: int, ghost r: int, ghost c: int, ghost w: Guard, ghost ref: Grid, ghost t: int, ghost dest: int)
    requires Kept(p, w, ref)
    requires 0 < numCols && c < p.dim && dest == c - numCols && 0 <= dest && 0 <= r < p.dim - 1
    requires p.emptyRow == r + 1 && p.emptyCol == c && p.Tiles()[r][c] == t
    requires BandOpen(w, p.dim, c, dest, r)
    modifies p, p.board
    ensures Kept(p, w, ref) && Even(p) == old(Even(p)) && p.moveNumber >= old(p.moveNumber)
    ensures AtCol(p, r, dest, true, t)
  {
    for i := 0 to numCols
      invariant i < numCols
      invariant Kept(p, w, ref) && Even(p) == old(Even(p)) && p.moveNumber >= old(p.moveNumber)
      invariant p.emptyRow == r + 1 && p.emptyCol == c - i && p.Tiles()[r][c - i] == t
    {
      BandCells(w, p.dim, c, dest, r, c - i, c - i - 1);
      RoundLeft(p, r, c - i, w, ref, t, i == numCols - 1);
      if i == numCols - 1 {
        break;
      }
    }
  }
}
