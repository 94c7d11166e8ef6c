/** `arr_index`: the index of a board's pattern tiles in a pattern's slice of
    the heuristic table. Each pattern tile found on the board contributes its
    cell as one base-16 digit, the first tile being the least significant.
    The generator scans the whole board for every tile; the two solvers stop
    at the first match, and their reflected variant reads each cell through
    the transpose about the main diagonal. */
module PatternIndex {
  import opened Common

  const BoardSide := 4
  const BoardCells := 16

  // ---------------------------------------------------------------------
  // The reflection about the main diagonal.

  /** The cell `j` reflected about the main diagonal: `4j - 15 * (j / 4)`. */
  function Transpose(j: int): int
  {
    BoardSide * j - (BoardCells - 1) * (j / BoardSide)
  }

  /** The reflected cell swaps row and column: cell (r, c) goes to (c, r). It
      stays on the board, and reflecting twice gives the cell back. */
  lemma TransposeSwapsRowAndColumn(j: int)
    requires 0 <= j < BoardCells
    ensures Transpose(j) == (j % BoardSide) * BoardSide + j / BoardSide
    ensures 0 <= Transpose(j) < BoardCells
    ensures Transpose(j) / BoardSide == j % BoardSide && Transpose(j) % BoardSide == j / BoardSide
    ensures Transpose(Transpose(j)) == j
  {
    var r, c := j / BoardSide, j % BoardSide;
    assert j == r * BoardSide + c;
    assert 0 <= r < BoardSide;
    assert Transpose(j) == c * BoardSide + r;
    DivModOfDigit(BoardSide, c, r);
    assert Transpose(Transpose(j)) == r * BoardSide + c;
  }

  // ---------------------------------------------------------------------
  // What the scans find.

  /** The cells below `j` holding `t`, in increasing order: what the scan
      without `break` adds for tile `t`. */
  function AllMatches(board: seq<int>, t: int, j: nat): (cells: seq<int>)
    requires j <= |board|
  {
    if j == 0 then [] else AllMatches(board, t, j - 1) + (if board[j - 1] == t then [j - 1] else [])
  }

  /** The first cell holding `t`, if any: what the scan with `break` adds
      for tile `t`. */
  function FirstMatch(board: seq<int>, t: int): (cells: seq<int>)
  {
    if t in board then [IndexOf(board, t)] else []
  }

  /** The cells every pattern tile is found in, tile by tile: the base-16
      digits of the index, least significant first. `first` selects the scan
      with `break`. */
  function Matches(board: seq<int>, tiles: seq<int>, first: bool): (cells: seq<int>)
  {
    if tiles == [] then []
    else
      Matches(board, tiles[..|tiles| - 1], first) +
      (if first then FirstMatch(board, tiles[|tiles| - 1]) else AllMatches(board, tiles[|tiles| - 1], |board|))
  }

  /** The digits read through the reflection. */
  function Reflect(cells: seq<int>): (r: seq<int>)
  {
    seq(|cells|, i requires 0 <= i < |cells| => Transpose(cells[i]))
  }

  /** Base-16 digits, least significant first, as a number. */
  function Encode(digits: seq<int>): int
  {
    if digits == [] then 0 else Encode(digits[..|digits| - 1]) + digits[|digits| - 1] * Pow(BoardCells, |digits| - 1)
  }

  /** The digits as the index reads them: through the reflection or not. */
  function Read(cells: seq<int>, reflected: bool): seq<int>
  {
    if reflected then Reflect(cells) else cells
  }

  /** The index `arr_index` computes. */
  function Index(board: seq<int>, tiles: seq<int>, first: bool, reflected: bool): int
  {
    Encode(Read(Matches(board, tiles, first), reflected))
  }

  predicate Digits(cells: seq<int>)
  {
    forall i :: 0 <= i < |cells| ==> 0 <= cells[i] < BoardCells
  }

  // ---------------------------------------------------------------------
  // Facts about the digits and the number they make.

  lemma {:induction false} AllMatchesAreCells(board: seq<int>, t: int, j: nat)
    requires j <= |board|
    ensures forall i :: 0 <= i < |AllMatches(board, t, j)| ==> 0 <= AllMatches(board, t, j)[i] < j
    ensures forall i :: 0 <= i < |AllMatches(board, t, j)| ==> board[AllMatches(board, t, j)[i]] == t
  {
    if j > 0 {
      AllMatchesAreCells(board, t, j - 1);
    }
  }

  /** Every digit is a board cell, and the first-match scan finds at most
      one cell per tile. */
  lemma {:induction false} MatchesAreCells(board: seq<int>, tiles: seq<int>, first: bool)
    requires |board| == BoardCells
    ensures Digits(Matches(board, tiles, first))
    ensures first ==> |Matches(board, tiles, first)| <= |tiles|
  {
    if tiles != [] {
      MatchesAreCells(board, tiles[..|tiles| - 1], first);
      AllMatchesAreCells(board, tiles[|tiles| - 1], |board|);
    }
  }

  lemma ReflectDigits(cells: seq<int>)
    requires Digits(cells)
    ensures Digits(Reflect(cells)) && |Reflect(cells)| == |cells|
  {
    forall i | 0 <= i < |cells| ensures 0 <= Reflect(cells)[i] < BoardCells {
      TransposeSwapsRowAndColumn(cells[i]);
    }
  }

  lemma PowStep(e: nat)
    ensures Pow(BoardCells, e + 1) == Pow(BoardCells, e) * BoardCells
  {
  }

  /** n base-16 digits make a number in [0, 16^n). */
  lemma {:induction false} EncodeBound(digits: seq<int>)
    requires Digits(digits)
    ensures 0 <= Encode(digits) < Pow(BoardCells, |digits|)
  {
    if digits != [] {
      var n := |digits| - 1;
      var init := digits[..n];
      EncodeBound(init);
      var p := Pow(BoardCells, n);
      PowStep(n);
      MulMonotone(p, digits[n], BoardCells - 1);
      assert digits[n] * p <= (BoardCells - 1) * p;
      assert 0 <= digits[n] * p;
    }
  }

  lemma {:induction false} PowMonotone(a: nat, b: nat)
    requires a <= b
    ensures Pow(BoardCells, a) <= Pow(BoardCells, b)
  {
    if a < b {
      PowMonotone(a, b - 1);
      PowStep(b - 1);
    }
  }

  /** The top digit and the rest of a number below 16 * p are unique. */
  lemma DigitUnique(a1: int, a2: int, x1: int, x2: int, p: int)
    requires 0 <= a1 < p && 0 <= a2 < p && 0 <= x1 && 0 <= x2
    requires a1 + x1 * p == a2 + x2 * p
    ensures x1 == x2 && a1 == a2
  {
    MulAwayFromZero(x2 - x1, p);
    assert (x2 - x1) * p == a1 - a2;
  }

  /** A non-zero multiple of p is at least p away from 0. */
  lemma MulAwayFromZero(y: int, p: int)
    requires p >= 1
    ensures y >= 1 ==> y * p >= p
    ensures y <= -1 ==> y * p <= -p
  {
    if y >= 1 {
      MulAtLeast(y, p);
    } else if y <= -1 {
      MulAtLeast(-y, p);
      assert y * p == -((-y) * p);
    }
  }

  /** Different digit sequences of one length make different numbers: the
      index determines the cells. */
  lemma {:induction false} EncodeInjective(d1: seq<int>, d2: seq<int>)
    requires Digits(d1) && Digits(d2) && |d1| == |d2| && Encode(d1) == Encode(d2)
    ensures d1 == d2
  {
    if d1 != [] {
      var n := |d1| - 1;
      var p := Pow(BoardCells, n);
      EncodeBound(d1[..n]);
      EncodeBound(d2[..n]);
      PowStep(n);
      DigitUnique(Encode(d1[..n]), Encode(d2[..n]), d1[n], d2[n], p);
      EncodeInjective(d1[..n], d2[..n]);
      assert d1 == d1[..n] + [d1[n]] && d2 == d2[..n] + [d2[n]];
    }
  }

  /** The index of a 16-cell board lies in [0, 16^n) for a pattern of n
      tiles; for the scan without `break` this needs each tile to occur at
      most once. */
  lemma IndexBound(board: seq<int>, tiles: seq<int>, first: bool, reflected: bool)
    requires |board| == BoardCells && (first || OnceAtMost(board, tiles))
    ensures 0 <= Index(board, tiles, first, reflected) < Pow(BoardCells, |tiles|)
  {
    var cells := Matches(board, tiles, first);
    MatchesAreCells(board, tiles, first);
    if !first {
      ScansAgree(board, tiles);
      MatchesAreCells(board, tiles, true);
    }
    ReflectDigits(cells);
    EncodeBound(cells);
    EncodeBound(Reflect(cells));
    PowMonotone(|cells|, |tiles|);
  }

  // ---------------------------------------------------------------------
  // The two scans agree when labels are unique.

  /** Each of the labels occurs at most once on the board. */
  ghost predicate OnceAtMost(board: seq<int>, tiles: seq<int>)
  {
    forall i :: 0 <= i < |tiles| ==> multiset(board)[tiles[i]] <= 1
  }

  /** A label that occurs at most once sits in one cell. */
  lemma OnceIndex(board: seq<int>, t: int, i: int, j: int)
    requires multiset(board)[t] <= 1 && 0 <= i < |board| && 0 <= j < |board|
    requires board[i] == t && board[j] == t
    ensures i == j
  {
    if i < j {
      RepeatCountsTwice(board, i, j);
    } else if j < i {
      RepeatCountsTwice(board, j, i);
    }
  }

  /** For a label occurring at most once, the scan without `break` finds
      the first match and nothing else. */
  lemma {:induction false} AllMatchesOnce(board: seq<int>, t: int, j: nat)
    requires multiset(board)[t] <= 1 && j <= |board|
    ensures AllMatches(board, t, j) == (if t in board[..j] then [IndexOf(board, t)] else [])
  {
    if j > 0 {
      AllMatchesOnce(board, t, j - 1);
      assert board[..j] == board[..j - 1] + [board[j - 1]];
      if board[j - 1] == t {
        OnceIndex(board, t, IndexOf(board, t), j - 1);
        assert t !in board[..j - 1] by {
          forall i | 0 <= i < j - 1 ensures board[i] != t {
            if board[i] == t {
              OnceIndex(board, t, i, j - 1);
            }
          }
        }
      }
    }
  }

  /** The generator's scan and the solvers' scan give the same digits
      whenever each pattern label occurs at most once. */
  lemma {:induction false} ScansAgree(board: seq<int>, tiles: seq<int>)
    requires OnceAtMost(board, tiles)
    ensures Matches(board, tiles, false) == Matches(board, tiles, true)
  {
    if tiles != [] {
      ScansAgree(board, tiles[..|tiles| - 1]);
      AllMatchesOnce(board, tiles[|tiles| - 1], |board|);
      assert board[..|board|] == board;
    }
  }

  /** With every pattern label on the board once, the digits are the
      labels' cells, so the index is the sum of pos(tile_i) * 16^i. */
  lemma {:induction false} MatchesArePositions(board: seq<int>, tiles: seq<int>)
    requires forall i :: 0 <= i < |tiles| ==> tiles[i] in board
    ensures Matches(board, tiles, true) == seq(|tiles|, i requires 0 <= i < |tiles| => IndexOf(board, tiles[i]))
  {
    if tiles != [] {
      MatchesArePositions(board, tiles[..|tiles| - 1]);
    }
  }

  /** Two boards on which every tile of the pattern appears once have the
      same index exactly when every pattern tile sits in the same cell. */
  lemma IndexDeterminesCells(b1: seq<int>, b2: seq<int>, tiles: seq<int>)
    requires |b1| == BoardCells && |b2| == BoardCells
    requires forall i :: 0 <= i < |tiles| ==> tiles[i] in b1 && tiles[i] in b2
    ensures Index(b1, tiles, true, false) == Index(b2, tiles, true, false) <==>
      forall i :: 0 <= i < |tiles| ==> IndexOf(b1, tiles[i]) == IndexOf(b2, tiles[i])
  {
    var m1, m2 := Matches(b1, tiles, true), Matches(b2, tiles, true);
    assert Index(b1, tiles, true, false) == Encode(m1) && Index(b2, tiles, true, false) == Encode(m2);
    assert m1 == m2 <==> forall i :: 0 <= i < |tiles| ==> IndexOf(b1, tiles[i]) == IndexOf(b2, tiles[i]) by {
      MatchesArePositions(b1, tiles);
      MatchesArePositions(b2, tiles);
      if forall i :: 0 <= i < |tiles| ==> IndexOf(b1, tiles[i]) == IndexOf(b2, tiles[i]) {
        assert m1 == m2;
      }
      if m1 == m2 {
        forall i | 0 <= i < |tiles| ensures IndexOf(b1, tiles[i]) == IndexOf(b2, tiles[i]) {
          assert m1[i] == m2[i];
        }
      }
    }
    assert Encode(m1) == Encode(m2) ==> m1 == m2 by {
      if Encode(m1) == Encode(m2) {
        MatchesArePositions(b1, tiles);
        MatchesArePositions(b2, tiles);
        MatchesAreCells(b1, tiles, true);
        MatchesAreCells(b2, tiles, true);
        EncodeInjective(m1, m2);
      }
    }
  }

  // ---------------------------------------------------------------------
  // The reflected index reads the transposed board.

  /** The board reflected about its main diagonal. */
  function TransposeBoard(board: seq<int>): (r: seq<int>)
    requires |board| == BoardCells
  {
    seq(BoardCells, j requires 0 <= j < BoardCells => board[Transpose(j)])
  }

  /** The first match is the only one. */
  lemma IndexOfUnique(s: seq<int>, x: int, k: int)
    requires 0 <= k < |s| && s[k] == x
    requires forall j :: 0 <= j < |s| && s[j] == x ==> j == k
    ensures x in s && IndexOf(s, x) == k
  {
  }

  /** A label found in cell p of a board of distinct labels is found in the
      reflected cell of the transposed board. */
  lemma FirstMatchTransposed(board: seq<int>, t: int)
    requires |board| == BoardCells && Distinct(board)
    ensures FirstMatch(TransposeBoard(board), t) == Reflect(FirstMatch(board, t))
  {
    var tb := TransposeBoard(board);
    if t in board {
      var p := IndexOf(board, t);
      TransposeSwapsRowAndColumn(p);
      forall j | 0 <= j < BoardCells && tb[j] == t ensures j == Transpose(p) {
        TransposeSwapsRowAndColumn(j);
        DistinctIndex(board, Transpose(j), p);
      }
      IndexOfUnique(tb, t, Transpose(p));
    } else {
      forall j | 0 <= j < BoardCells ensures tb[j] != t {
        TransposeSwapsRowAndColumn(j);
      }
    }
  }

  lemma ReflectAppend(a: seq<int>, b: seq<int>)
    ensures Reflect(a + b) == Reflect(a) + Reflect(b)
  {
  }

  /** The reflected index of a board is the plain index of the transposed
      board: the reflected heuristic looks the mirrored board up. */
  lemma {:induction false} ReflectedIndexIsTransposedBoard(board: seq<int>, tiles: seq<int>)
    requires |board| == BoardCells && Distinct(board)
    ensures Index(board, tiles, true, true) == Index(TransposeBoard(board), tiles, true, false)
    ensures Matches(TransposeBoard(board), tiles, true) == Reflect(Matches(board, tiles, true))
  {
    if tiles != [] {
      var init, t := tiles[..|tiles| - 1], tiles[|tiles| - 1];
      ReflectedIndexIsTransposedBoard(board, init);
      FirstMatchTransposed(board, t);
      ReflectAppend(Matches(board, init, true), FirstMatch(board, t));
    }
  }

  // ---------------------------------------------------------------------
  // The loops.

  /** Appending a digit adds it at the next power of 16. */
  lemma EncodeAppend(digits: seq<int>, x: int)
    ensures Encode(digits + [x]) == Encode(digits) + x * Pow(BoardCells, |digits|)
  {
    assert (digits + [x])[..|digits|] == digits;
  }

  lemma MatchesStep(board: seq<int>, tiles: seq<int>, i: nat, first: bool)
    requires i < |tiles|
    ensures Matches(board, tiles[..i + 1], first) ==
      Matches(board, tiles[..i], first) +
      (if first then FirstMatch(board, tiles[i]) else AllMatches(board, tiles[i], |board|))
  {
    assert tiles[..i + 1][..i] == tiles[..i];
  }

  /** The scan with `break` has found its cell when nothing before it
      matched. */
  lemma FirstMatchAt(board: seq<int>, t: int, j: nat)
    requires j < |board| && board[j] == t && forall k :: 0 <= k < j ==> board[k] != t
    ensures FirstMatch(board, t) == [j]
  {
    IndexOfFirst(board, t, j);
  }

  /** `IndexOf` finds the first cell holding the label. */
  lemma {:induction false} IndexOfFirst(s: seq<int>, x: int, k: int)
    requires 0 <= k < |s| && s[k] == x
    ensures x in s && IndexOf(s, x) <= k
  {
    if s[0] != x {
      IndexOfFirst(s[1..], x, k - 1);
    }
  }

  /** The cell digit the loops add: reflected or not. */
  function Cell(j: int, reflected: bool): int
  {
    if reflected then Transpose(j) else j
  }

  /** One more digit found: the index grows by its digit times the running
      power of 16, which grows sixteenfold. */
  lemma ReadStep(digits: seq<int>, j: int, reflected: bool)
    ensures Encode(Read(digits + [j], reflected)) ==
      Encode(Read(digits, reflected)) + Cell(j, reflected) * Pow(BoardCells, |digits|)
    ensures Pow(BoardCells, |digits + [j]|) == Pow(BoardCells, |digits|) * BoardCells
  {
    ReflectAppend(digits, [j]);
    EncodeAppend(Read(digits, reflected), Cell(j, reflected));
    PowStep(|digits|);
  }

  /** The inner loop of the solvers' `arr_index`: the first cell holding
      `t`, or 16 when no cell does. */
  method FindFirst(board: array<int>, t: int) returns (j: int)
    requires board.Length == BoardCells
    ensures 0 <= j <= BoardCells
    ensures j == BoardCells ==> FirstMatch(board[..], t) == []
    ensures j < BoardCells ==> FirstMatch(board[..], t) == [j]
  {
    j := 0;
    while j < BoardCells
      invariant 0 <= j <= BoardCells
      invariant forall l :: 0 <= l < j ==> board[l] != t
    {
      if t == board[j] {
        FirstMatchAt(board[..], t, j);
        return;
      }
      j := j + 1;
    }
    assert t !in board[..];
  }

  /** `arr_index` of the two solvers: for each pattern tile (the reflected
      ordering when `reflected`), the first cell holding it adds that cell
      (its transpose when `reflected`) times the running power of 16. */
  method ArrIndex(board: array<int>, tiles: seq<int>, reflectedTiles: seq<int>, reflected: bool)
    returns (index: int)
    requires board.Length == BoardCells
    ensures index == Index(board[..], if reflected then reflectedTiles else tiles, true, reflected)
    ensures 0 <= index < Pow(BoardCells, |if reflected then reflectedTiles else tiles|)
  {
    var ts := if reflected then reflectedTiles else tiles;
    index := 0;
    var k := 1;
    ghost var digits: seq<int> := [];
    for i := 0 to |ts|
      invariant digits == Matches(board[..], ts[..i], true)
      invariant index == Encode(Read(digits, reflected))
      invariant k == Pow(BoardCells, |digits|)
    {
      MatchesStep(board[..], ts, i, true);
      var j := FindFirst(board, ts[i]);
      if j < BoardCells {
        ReadStep(digits, j, reflected);
        index := index + Cell(j, reflected) * k;
        k := k * BoardCells;
        digits := digits + [j];
      }
    }
    assert ts[..|ts|] == ts;
    IndexBound(board[..], ts, true, reflected);
  }

  /** The inner loop of the generator's `arr_index`: every cell holding `t`
      adds its digit. */
  method AddAllMatches(board: array<int>, t: int, index0: int, k0: int, ghost digits0: seq<int>)
    returns (index: int, k: int, ghost digits: seq<int>)
    requires board.Length == BoardCells
    requires index0 == Encode(digits0) && k0 == Pow(BoardCells, |digits0|)
    ensures digits == digits0 + AllMatches(board[..], t, BoardCells)
    ensures index == Encode(digits0 + AllMatches(board[..], t, BoardCells))
    ensures k == Pow(BoardCells, |digits0| + |AllMatches(board[..], t, BoardCells)|)
    ensures index == Encode(digits) && k == Pow(BoardCells, |digits|)
  {
    index, k, digits := index0, k0, digits0;
    for j := 0 to BoardCells
      invariant digits == digits0 + AllMatches(board[..], t, j)
      invariant index == Encode(digits) && k == Pow(BoardCells, |digits|)
    {
      if t == board[j] {
        EncodeAppend(digits, j);
        PowStep(|digits|);
        index := index + j * k;
        k := k * BoardCells;
        digits := digits + [j];
      }
    }
  }

  /** `arr_index` of the table generator: every cell holding a pattern tile
      adds that cell times the running power of 16 (no `break`). */
  method ArrIndexAll(board: array<int>, tiles: seq<int>) returns (index: int)
    requires board.Length == BoardCells
    ensures index == Index(board[..], tiles, false, false)
    ensures OnceAtMost(board[..], tiles) ==> 0 <= index < Pow(BoardCells, |tiles|)
  {
    index := 0;
    var k := 1;
    ghost var digits: seq<int> := [];
    for i := 0 to |tiles|
      invariant digits == Matches(board[..], tiles[..i], false)
      invariant index == Encode(digits) && k == Pow(BoardCells, |digits|)
    {
      MatchesStep(board[..], tiles, i, false);
      index, k, digits := AddAllMatches(board, tiles[i], index, k, digits);
      assert digits == Matches(board[..], tiles[..i + 1], false);
    }
    assert tiles[..|tiles|] == tiles;
    assert index == Index(board[..], tiles, false, false) by {
      assert Read(digits, false) == digits;
    }
    if OnceAtMost(board[..], tiles) {
      IndexBound(board[..], tiles, false, false);
    }
  }
}
