// The command-line 4x4 solver (standalone_dim4_solver.c): each input line
// is cleaned of its line ending, read as sixteen tile numbers, checked for
// solvability and handed to the IDA* search, whose answer is written out.

module Standalone {
  import opened Common
  import opened Geometry
  import opened Heuristic
  import opened Solvability
  import opened IdaSearch

  /** The shortest line that can hold a board: sixteen numbers, ten of one
      digit and six of two, and the fifteen separators between them. */
  const MinimumChars := 37

  // ---------------------------------------------------------------------
  // Line endings.

  predicate IsNewline(c: char)
  {
    c == '\r' || c == '\n'
  }

  /** The line without its trailing carriage returns and line feeds. */
  function Stripped(line: string): (s: string)
    ensures s <= line
    ensures s == [] || !IsNewline(s[|s| - 1])
    ensures forall k :: |s| <= k < |line| ==> IsNewline(line[k])
    decreases |line|
  {
    if line != [] && IsNewline(line[|line| - 1]) then Stripped(line[..|line| - 1]) else line
  }

  /** The stripping loop of `main`, with the length test before the read:
      the number of characters left once the line ending is removed. */
  method StripNewlines(line: string) returns (n: nat)
    ensures n == |Stripped(line)|
  {
    n := |line|;
    while n > 0 && IsNewline(line[n - 1])
      invariant n <= |line|
      invariant Stripped(line[..n]) == Stripped(line)
    {
      assert line[..n][..n - 1] == line[..n - 1];
      n := n - 1;
    }
    assert line[..n] == Stripped(line[..n]);
  }

  /** The indices the stripping loop of `main` reads, as written: it tests
      `line[num_chars - 1]` with no check that `num_chars` is positive. A
      read below 0 is the last one listed. */
  function StripReads(line: string, n: int): (indices: seq<int>)
    requires n <= |line|
    ensures |indices| >= 1 && indices[0] == n - 1
    decreases n
  {
    if n <= 0 then [n - 1]
    else if IsNewline(line[n - 1]) then [n - 1] + StripReads(line, n - 1)
    else [n - 1]
  }

  /** A line made only of line-ending characters (an empty input line)
      makes the loop read the character before the buffer. */
  lemma {:induction false} StripReadsBeforeLine(line: string, n: int)
    requires 0 <= n <= |line|
    requires forall k :: 0 <= k < n ==> IsNewline(line[k])
    ensures -1 in StripReads(line, n)
    decreases n
  {
    if n > 0 {
      StripReadsBeforeLine(line, n - 1);
    }
  }

  /** The line "\n", which `getline` returns for an empty input line. */
  lemma EmptyLineReadsBeforeLine()
    ensures StripReads("\n", 1) == [0, -1]
  {
  }

  // ---------------------------------------------------------------------
  // Reading the sixteen numbers.

  /** What one call of `strtol` finds at the current position: a number
      (already cast to `int`), or nothing it can convert. */
  datatype Token = Number(value: int) | NotNumber

  /** The value `strtol` returns: 0 when nothing was converted. */
  function Converted(t: Token): int
  {
    if t.Number? then t.value else 0
  }

  /** A number that can be a tile of the 4x4 board. */
  predicate InRange(t: Token)
  {
    t.Number? && 0 <= t.value <= 15
  }

  /** The k-th call of `strtol` on the line; past the last number nothing
      is converted. */
  function TokenAt(toks: seq<Token>, k: nat): Token
  {
    if k < |toks| then toks[k] else NotNumber
  }

  /** How many numbers, from the i-th on, are read as tiles: reading stops
      at the first token that is not a number in [0, 15], or after the
      sixteenth. */
  function LeadingTiles(toks: seq<Token>, i: nat): (n: nat)
    requires i <= 16
    ensures i <= n <= 16
    ensures forall k :: i <= k < n ==> InRange(TokenAt(toks, k))
    ensures n < 16 ==> !InRange(TokenAt(toks, n))
    decreases 16 - i
  {
    if i == 16 || !InRange(TokenAt(toks, i)) then i else LeadingTiles(toks, i + 1)
  }

  /** The board the first sixteen numbers describe. */
  function TileValues(toks: seq<Token>): (b: seq<int>)
    ensures |b| == 16
  {
    seq(16, k requires 0 <= k => Converted(TokenAt(toks, k)))
  }

  /** The cells the reading loop of `main` assigns, as written: it stores
      the converted value in `board[i]` before it tests `i >= 16`. */
  function WrittenCells(toks: seq<Token>, i: nat): (cells: seq<int>)
    requires i <= 16
    ensures |cells| >= 1 && cells[0] == i
    decreases 16 - i
  {
    if !InRange(TokenAt(toks, i)) || i >= 16 then [i] else [i] + WrittenCells(toks, i + 1)
  }

  /** As written, the loop assigns every cell up to and including the
      first one that stops it, and after sixteen tiles that is cell 16. */
  lemma {:induction false} WrittenCellsRange(toks: seq<Token>, i: nat)
    requires i <= 16
    ensures WrittenCells(toks, i)[|WrittenCells(toks, i)| - 1] == LeadingTiles(toks, i)
    decreases 16 - i
  {
    if InRange(TokenAt(toks, i)) && i < 16 {
      WrittenCellsRange(toks, i + 1);
    }
  }

  /** Every line with sixteen tiles makes the loop write past the board. */
  lemma WritesPastBoard(toks: seq<Token>)
    requires LeadingTiles(toks, 0) == 16
    ensures 16 in WrittenCells(toks, 0)
  {
    WrittenCellsRange(toks, 0);
  }

  /** The reading loop of `main`, with the bounds test made first: reads
      tiles into `board` until a token is not a tile or sixteen are read,
      and returns how many were read. As in the source, the token that stops
      the loop early is still stored. */
  method ReadBoard(toks: seq<Token>, board: array<int>) returns (count: nat)
    requires board.Length == 16
    modifies board
    ensures count == LeadingTiles(toks, 0)
    ensures forall k :: 0 <= k < count ==> board[k] == TileValues(toks)[k]
    ensures count < 16 ==> board[count] == Converted(TokenAt(toks, count))
    ensures forall k :: count < k < 16 ==> board[k] == old(board[k])
  {
    count := 0;
    while count < 16
      invariant count <= 16 && LeadingTiles(toks, count) == LeadingTiles(toks, 0)
      invariant forall k :: 0 <= k < count ==> board[k] == TileValues(toks)[k]
      invariant forall k :: count <= k < 16 ==> board[k] == old(board[k])
    {
      var t := TokenAt(toks, count);
      board[count] := Converted(t);
      if !InRange(t) {
        return;
      }
      count := count + 1;
    }
  }

  /** A board with no empty cell, which the reading loop accepts. */
  function AllOnes(): seq<Token>
  {
    seq(16, k => Number(1))
  }

  /** A line that reads as `AllOnes`: sixteen "01" tokens, each followed by
      a space, 48 characters with no line ending. */
  function OnesLine(): string
  {
    seq(48, k => if k % 3 == 0 then '0' else if k % 3 == 1 then '1' else ' ')
  }

  /** As written, `is_solvable` relabels the cell where its scan for 0
      stops; the line of sixteen "01" tokens is long enough, its sixteen
      tiles pass the range check, and the scan stops at 16, past the end of
      `array`. */
  lemma AllOnesRelabelsPastBoard()
    ensures |Stripped(OnesLine())| >= MinimumChars
    ensures LeadingTiles(AllOnes(), 0) == 16
    ensures ScanForEmpty(TileValues(AllOnes())) == 16
  {
    assert !IsNewline(OnesLine()[47]);
    assert forall k :: 0 <= k < 16 ==> InRange(TokenAt(AllOnes(), k));
    var b := TileValues(AllOnes());
    assert forall k :: 0 <= k < 16 ==> b[k] == 1;
    assert 0 !in b;
  }

  // ---------------------------------------------------------------------
  // Writing the answer.

  function DigitChar(d: int): char
    requires 0 <= d < 10
  {
    ('0' as int + d) as char
  }

  predicate IsDigit(c: char)
  {
    '0' <= c <= '9'
  }

  /** The decimal digits of `n`, as `printf("%i")` writes them. */
  function NatToString(n: nat): (s: string)
    ensures |s| >= 1 && forall k :: 0 <= k < |s| ==> IsDigit(s[k])
    decreases n
  {
    if n < 10 then [DigitChar(n)] else NatToString(n / 10) + [DigitChar(n % 10)]
  }

  /** `%i` of any `int`: a minus sign before the digits of a negative. */
  function IntToString(i: int): (s: string)
    ensures ' ' !in s && '\n' !in s
  {
    if i < 0 then "-" + NatToString(-i) else NatToString(i)
  }

  /** The value of a string of decimal digits. */
  function DigitsValue(s: string): int
    decreases |s|
  {
    if s == [] then 0 else DigitsValue(s[..|s| - 1]) * 10 + (s[|s| - 1] as int - '0' as int)
  }

  /** The value of an optionally signed decimal number. */
  function ParseInt(s: string): int
  {
    if s != [] && s[0] == '-' then -DigitsValue(s[1..]) else DigitsValue(s)
  }

  lemma {:induction false} NatRoundTrip(n: nat)
    ensures DigitsValue(NatToString(n)) == n
    decreases n
  {
    if n >= 10 {
      NatRoundTrip(n / 10);
      var s := NatToString(n);
      assert s[..|s| - 1] == NatToString(n / 10);
    }
  }

  /** Reading back what `%i` writes gives the number. */
  lemma IntRoundTrip(i: int)
    ensures ParseInt(IntToString(i)) == i
  {
    if i < 0 {
      NatRoundTrip(-i);
      assert ("-" + NatToString(-i))[1..] == NatToString(-i);
    } else {
      NatRoundTrip(i);
    }
  }

  /** Each move followed by a space, as the printing loop writes them. */
  function MovesText(tiles: seq<int>): string
    decreases |tiles|
  {
    if tiles == [] then "" else IntToString(tiles[0]) + " " + MovesText(tiles[1..])
  }

  /** The answer for a solved board: "<N> moves: m1 ... mN \n". */
  function Report(tiles: seq<int>): string
  {
    IntToString(|tiles|) + " moves: " + MovesText(tiles) + "\n"
  }

  /** The first space of `s`, or |s| if there is none. */
  function FirstSpace(s: string): (k: nat)
    ensures k <= |s| && ' ' !in s[..k] && (k < |s| ==> s[k] == ' ')
    decreases |s|
  {
    if s == [] then 0
    else if s[0] == ' ' then 0
    else
      assert s[..1 + FirstSpace(s[1..])] == [s[0]] + s[1..][..FirstSpace(s[1..])];
      1 + FirstSpace(s[1..])
  }

  /** Reads space-terminated numbers back from a line of moves. */
  function ReadMoves(s: string): seq<int>
    decreases |s|
  {
    if s == [] then []
    else
      var k := FirstSpace(s);
      if k == |s| then [ParseInt(s)] else [ParseInt(s[..k])] + ReadMoves(s[k + 1..])
  }

  lemma FirstSpaceOf(a: string, b: string)
    requires ' ' !in a
    ensures FirstSpace(a + " " + b) == |a|
  {
    var s := a + " " + b;
    assert s[..|a|] == a && s[|a|] == ' ';
  }

  /** A number followed by a space is read back, then the rest. */
  lemma ReadMovesCons(a: string, b: string)
    requires ' ' !in a
    ensures ReadMoves(a + " " + b) == [ParseInt(a)] + ReadMoves(b)
  {
    var s := a + " " + b;
    FirstSpaceOf(a, b);
    assert s[..|a|] == a && s[|a| + 1..] == b;
  }

  /** The moves printed on a line are read back as the moves. */
  lemma {:induction false} ReadMovesText(tiles: seq<int>)
    ensures ReadMoves(MovesText(tiles)) == tiles
    decreases |tiles|
  {
    if tiles != [] {
      ReadMovesCons(IntToString(tiles[0]), MovesText(tiles[1..]));
      IntRoundTrip(tiles[0]);
      ReadMovesText(tiles[1..]);
    }
  }

  lemma {:induction false} MovesTextAppend(tiles: seq<int>, x: int)
    ensures MovesText(tiles + [x]) == MovesText(tiles) + (IntToString(x) + " ")
    decreases |tiles|
  {
    if tiles == [] {
      assert MovesText([x]) == IntToString(x) + " " + MovesText([]);
    } else {
      assert (tiles + [x])[1..] == tiles[1..] + [x];
      MovesTextAppend(tiles[1..], x);
    }
  }

  /** The printing of `dim4_solver`: the number of moves, then each move
      followed by a space, then the line end. */
  method WriteReport(numMoves: int, moves: array<int>) returns (out: string)
    requires 0 <= numMoves <= moves.Length
    ensures out == Report(moves[..numMoves])
  {
    ghost var ms := moves[..numMoves];
    var text := "";
    for i := 0 to numMoves
      invariant text == MovesText(ms[..i])
    {
      var word := IntToString(moves[i]) + " ";
      MovesTextAppend(ms[..i], moves[i]);
      assert ms[..i + 1] == ms[..i] + [moves[i]];
      text := text + word;
    }
    assert ms[..numMoves] == ms;
    out := IntToString(numMoves) + " moves: " + text + "\n";
  }

  // ---------------------------------------------------------------------
  // Solving one board.

  /** `is_solved`: the empty cell is last and every other cell holds its
      own number. */
  method IsSolvedBoard(board: array<int>) returns (r: bool)
    requires board.Length == 16
    ensures r <==> board[..] == SolvedBoard(16)
  {
    if board[15] != 0 {
      return false;
    }
    for i := 0 to 15
      invariant forall k :: 0 <= k < i ==> board[k] == k + 1
    {
      if board[i] != i + 1 {
        return false;
      }
    }
    assert forall k :: 0 <= k < 16 ==> board[k] == SolvedBoard(16)[k];
    return true;
  }

  /** `dim4_solver`: a root node is set up from the board, IDA* rounds
      run until one reaches a board of heuristic 0, and if that board is the
      solved board the moves are written. On success the board, from the
      empty cell `e0`, reaches the solved board by the non-reversing walk
      `dirs`, whose tiles are the moves written; when the table is
      admissible no goal walk is shorter. When the search gives up nothing
      is written and, with an admissible table, no goal walk has 80 moves
      or fewer. */
  method Dim4Solver(table: array<Byte>, reflectedTiles: seq<seq<int>>, board: array<int>)
    returns (ok: bool, out: string, ghost e0: int, ghost dirs: seq<int>)
    requires board.Length == 16 && 0 in board[..]
    requires table.Length == TotalStates && ReflectedTilesOK(reflectedTiles)
    ensures 0 <= e0 < 16 && board[e0] == 0
    ensures ok ==> Legal(e0, dirs) && Slide(board[..], e0, dirs).board == SolvedBoard(16)
    ensures ok ==> NonReversing(NoMove, Slide(board[..], e0, dirs).tiles)
    ensures ok ==> out == Report(Slide(board[..], e0, dirs).tiles)
    ensures ok && Admissible(Estimate(Tables(table[..], reflectedTiles))) ==>
      Shortest(Estimate(Tables(table[..], reflectedTiles)), board[..], e0, |dirs|)
    ensures !ok ==> out == "" || out == "Error!\n"
    ensures !ok && out == "" && Admissible(Estimate(Tables(table[..], reflectedTiles))) ==>
      Shortest(Estimate(Tables(table[..], reflectedTiles)), board[..], e0, 81)
  {
    var root := new SearchNode(board, table, reflectedTiles);
    ghost var est := Estimate(Tables(table[..], reflectedTiles));
    EstimateReadsTable(Tables(table[..], reflectedTiles));
    e0 := root.emptyIndex;
    var found;
    found, dirs := IdaStar(root, table, reflectedTiles, est);
    if !found {
      return false, "", e0, dirs;
    }
    var solved := IsSolvedBoard(root.board);
    if !solved {
      return false, "Error!\n", e0, dirs;
    }
    out := WriteReport(root.numMoves, root.moves);
    ok := true;
  }

  // ---------------------------------------------------------------------
  // The main loop.

  /** A line the solver is called on: long enough, sixteen tiles, and the
      board has an empty cell (which `is_solvable` demands). */
  predicate Attempted(line: string, toks: seq<Token>)
  {
    |Stripped(line)| >= MinimumChars && LeadingTiles(toks, 0) == 16 && 0 in TileValues(toks)
  }

  /** One pass of the loop of `main`. The solver is called only on a long
      enough line of sixteen tiles whose board is solvable; for a
      permutation board that is exactly when its parity invariant is even.
      When the solver succeeds the line's output is the report of a legal
      non-reversing walk from the board read (empty cell `e0`) to the solved
      board; when it fails `stop` is set, which ends the loop, and the
      output is empty or the error line. */
  method HandleLine(line: string, toks: seq<Token>, board: array<int>, table: array<Byte>, reflectedTiles: seq<seq<int>>)
    returns (attempted: bool, stop: bool, out: string, ghost e0: int, ghost dirs: seq<int>)
    requires board.Length == 16
    requires table.Length == TotalStates && ReflectedTilesOK(reflectedTiles)
    modifies board
    ensures attempted ==> Attempted(line, toks) && board[..] == TileValues(toks)
    ensures (|Stripped(line)| >= MinimumChars && LeadingTiles(toks, 0) == 16 &&
             IsPermutation(TileValues(toks), 16) && 0 in TileValues(toks)) ==>
      (attempted <==> ParityEven(4, TileValues(toks)))
    ensures !attempted ==> !stop && out == ""
    ensures attempted && !stop ==>
      0 <= e0 < 16 && Legal(e0, dirs) && Slide(TileValues(toks), e0, dirs).board == SolvedBoard(16) &&
      NonReversing(NoMove, Slide(TileValues(toks), e0, dirs).tiles) &&
      out == Report(Slide(TileValues(toks), e0, dirs).tiles)
    ensures attempted && stop ==> out == "" || out == "Error!\n"
  {
    attempted, stop, out, e0, dirs := false, false, "", 0, [];
    var numChars := StripNewlines(line);
    if numChars >= MinimumChars {
      var count := ReadBoard(toks, board);
      if count == 16 {
        assert board[..] == TileValues(toks);
        var solvable := IsSolvable(board);
        if solvable {
          attempted := true;
          var ok;
          ok, out, e0, dirs := Dim4Solver(table, reflectedTiles, board);
          stop := !ok;
        }
      }
    }
  }

  /** The loop of `main` over the input lines and the tokens `strtol` finds
      on each: every line is handled in turn, and the loop stops after the
      first line on which the solver fails. Returns what was written and how
      many lines were handled. */
  method Run(lines: seq<string>, tokens: seq<seq<Token>>, table: array<Byte>, reflectedTiles: seq<seq<int>>)
    returns (out: string, handled: nat)
    requires |tokens| == |lines|
    requires table.Length == TotalStates && ReflectedTilesOK(reflectedTiles)
    ensures handled <= |lines|
    ensures handled < |lines| ==> handled >= 1 && Attempted(lines[handled - 1], tokens[handled - 1])
  {
    var board := new int[16];
    out, handled := "", 0;
    while handled < |lines|
      invariant handled <= |lines|
    {
      var attempted, stop, text, _, _ := HandleLine(lines[handled], tokens[handled], board, table, reflectedTiles);
      out := out + text;
      handled := handled + 1;
      if stop {
        return;
      }
    }
  }
}
