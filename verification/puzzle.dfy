/** The game of logic.c: the global puzzle of fifteen.h (a square board of
    side `dim` with its empty cell and move counter), the two ways of making
    a move (`slide` by direction, `slide_tile` by tile number), the solved
    test, the board set-ups of `init` with their parity fix, and the rank of
    a 3x3 board. */
module Game {
  import opened Common
  import opened Geometry
  import opened Parity
  import opened Solvability
  import opened Ranking

  /** `DIM_MAX`: the largest side the game offers. */
  const DimMax := 9

  /** A board as rows of cells, `g[row][col]`. */
  type Grid = seq<seq<int>>

  /** `g` is an n x n grid. */
  predicate IsGrid(g: Grid, n: int)
  {
    |g| == n && forall r :: 0 <= r < n ==> |g[r]| == n
  }

  /** Grids that agree cell by cell are equal. */
  lemma GridEquality(g: Grid, h: Grid, n: int)
    requires IsGrid(g, n) && IsGrid(h, n)
    requires forall r, c :: 0 <= r < n && 0 <= c < n ==> g[r][c] == h[r][c]
    ensures g == h
  {
    forall r | 0 <= r < n
      ensures g[r] == h[r]
    {
      assert forall c :: 0 <= c < n ==> g[r][c] == h[r][c];
    }
  }

  /** The tile at (mr, mc) slides into the empty cell (er, ec), and (mr, mc)
      becomes the empty cell. */
  function MoveGrid(g: Grid, n: int, er: int, ec: int, mr: int, mc: int): (h: Grid)
    requires IsGrid(g, n) && 0 <= mr < n && 0 <= mc < n
    ensures IsGrid(h, n)
  {
    seq(n, r requires 0 <= r < n =>
      seq(n, c requires 0 <= c < n =>
        if r == mr && c == mc then 0 else if r == er && c == ec then g[mr][mc] else g[r][c]))
  }

  /** A move from the empty cell to itself changes nothing. */
  lemma MoveGridInPlace(g: Grid, n: int, er: int, ec: int)
    requires IsGrid(g, n) && 0 <= er < n && 0 <= ec < n && g[er][ec] == 0
    ensures MoveGrid(g, n, er, ec, er, ec) == g
  {
    GridEquality(MoveGrid(g, n, er, ec, er, ec), g, n);
  }

  /** The board read row by row, as `init` lays it out: cell (r, c) is entry
      r * n + c. */
  function Flatten(g: Grid, n: int): (s: seq<int>)
    requires n >= 1 && IsGrid(g, n)
    ensures |s| == n * n
  {
    seq(n * n, k requires 0 <= k < n * n => (QuotientBelow(k, n, n); g[k / n][k % n]))
  }

  lemma FlattenAt(g: Grid, n: int, r: int, c: int)
    requires n >= 1 && IsGrid(g, n) && 0 <= r < n && 0 <= c < n
    ensures 0 <= r * n + c < n * n && Flatten(g, n)[r * n + c] == g[r][c]
  {
    CellIndexBounds(n, r, c);
    DivModOfDigit(n, r, c);
  }

  /** Entry k of the flattened board is cell (k / n, k % n). */
  lemma FlatIndex(n: int, k: int)
    requires n >= 1 && 0 <= k < n * n
    ensures 0 <= k / n < n && 0 <= k % n < n && k == (k / n) * n + k % n
  {
    QuotientBelow(k, n, n);
    DivModSplit(k, n);
  }

  /** Moving on the grid is moving on the flattened board. */
  lemma FlattenMove(g: Grid, n: int, er: int, ec: int, mr: int, mc: int)
    requires n >= 1 && IsGrid(g, n) && 0 <= er < n && 0 <= ec < n && 0 <= mr < n && 0 <= mc < n
    ensures 0 <= er * n + ec < n * n && 0 <= mr * n + mc < n * n
    ensures Flatten(MoveGrid(g, n, er, ec, mr, mc), n) == MakeMove(Flatten(g, n), er * n + ec, mr * n + mc)
  {
    var e, m := er * n + ec, mr * n + mc;
    FlattenAt(g, n, er, ec);
    FlattenAt(g, n, mr, mc);
    var s, t := Flatten(MoveGrid(g, n, er, ec, mr, mc), n), MakeMove(Flatten(g, n), e, m);
    forall k | 0 <= k < n * n
      ensures s[k] == t[k]
    {
      FlatIndex(n, k);
      var r, c := k / n, k % n;
      DivModOfDigit(n, er, ec);
      DivModOfDigit(n, mr, mc);
      assert k == e <==> r == er && c == ec;
      assert k == m <==> r == mr && c == mc;
    }
  }

  // ---------------------------------------------------------------------
  // Moves.

  /** Where the empty cell goes when `slide` is given `direction`: 'l'
      slides the tile on its right to the left, 'r' the tile on its left to
      the right, 'u' the tile below it up and 'd' the tile above it down. A
      slide off the board, or any other key, leaves it where it is. */
  function Step(n: int, r: int, c: int, direction: char): (rc: (int, int))
  {
    if direction == 'l' && c < n - 1 then (r, c + 1)
    else if direction == 'r' && c > 0 then (r, c - 1)
    else if direction == 'u' && r < n - 1 then (r + 1, c)
    else if direction == 'd' && r > 0 then (r - 1, c)
    else (r, c)
  }

  /** The `valid_moves` direction in which each key finds its tile. */
  function DirectionOf(direction: char): int
  {
    if direction == 'l' then Right
    else if direction == 'r' then Left
    else if direction == 'u' then Below
    else if direction == 'd' then Above
    else -1
  }

  /** The key that undoes a key's move. */
  function Reverse(direction: char): char
  {
    if direction == 'l' then 'r'
    else if direction == 'r' then 'l'
    else if direction == 'u' then 'd'
    else if direction == 'd' then 'u'
    else direction
  }

  /** The bounds tests of `slide` agree with the neighbour table: a key moves
      the empty cell exactly when its direction has a neighbour, and then to
      that neighbour. */
  lemma StepIsNeighbour(n: int, r: int, c: int, direction: char)
    requires n >= 1 && 0 <= r < n && 0 <= c < n && DirectionOf(direction) != -1
    ensures 0 <= r * n + c < n * n
    ensures var m := Neighbour(n, r * n + c, DirectionOf(direction));
      var rc := Step(n, r, c, direction);
      (m == -1 <==> rc == (r, c)) && (m != -1 ==> m == rc.0 * n + rc.1)
  {
    NeighbourIsAdjacent(n, r, c, DirectionOf(direction));
    if direction == 'u' {
      assert (r + 1) * n + c == r * n + c + n;
    } else if direction == 'd' {
      assert (r - 1) * n + c == r * n + c - n;
    }
  }

  /** A key that moves the empty cell is undone by the reverse key. */
  lemma StepReverse(n: int, r: int, c: int, direction: char)
    requires 0 <= r < n && 0 <= c < n && Step(n, r, c, direction) != (r, c)
    ensures var rc := Step(n, r, c, direction);
      Step(n, rc.0, rc.1, Reverse(direction)) == (r, c)
  {
  }

  /** The key that moves the empty cell of (er, ec) to the adjacent cell
      (r, c). */
  function KeyTowards(er: int, ec: int, r: int, c: int): char
  {
    if r == er - 1 then 'd' else if r == er + 1 then 'u' else if c == ec - 1 then 'r' else 'l'
  }

  /** The cell `slide_tile` takes its tile from: of the neighbours of the
      empty cell that hold `tile`, the one it tests last (it tests right,
      left, below, above), or the empty cell itself if none holds it. */
  function TileSource(g: Grid, n: int, er: int, ec: int, tile: int): (rc: (int, int))
    requires IsGrid(g, n) && 0 <= er < n && 0 <= ec < n
    ensures 0 <= rc.0 < n && 0 <= rc.1 < n
  {
    if er > 0 && g[er - 1][ec] == tile then (er - 1, ec)
    else if er < n - 1 && g[er + 1][ec] == tile then (er + 1, ec)
    else if ec > 0 && g[er][ec - 1] == tile then (er, ec - 1)
    else if ec < n - 1 && g[er][ec + 1] == tile then (er, ec + 1)
    else (er, ec)
  }

  /** `direction` would slide `tile`. */
  predicate SlidesTile(g: Grid, n: int, er: int, ec: int, direction: char, tile: int)
    requires IsGrid(g, n) && 0 <= er < n && 0 <= ec < n
  {
    var rc := Step(n, er, ec, direction);
    rc != (er, ec) && g[rc.0][rc.1] == tile
  }

  /** `slide_tile` moves exactly when some key would slide the tile, and its
      move is the move of such a key: moving a tile by number is sliding it
      by direction. */
  lemma TileSourceIsSlide(g: Grid, n: int, er: int, ec: int, tile: int)
    requires IsGrid(g, n) && 0 <= er < n && 0 <= ec < n
    ensures var src := TileSource(g, n, er, ec, tile);
      (src != (er, ec) <==>
        SlidesTile(g, n, er, ec, 'l', tile) || SlidesTile(g, n, er, ec, 'r', tile) ||
        SlidesTile(g, n, er, ec, 'u', tile) || SlidesTile(g, n, er, ec, 'd', tile)) &&
      (src != (er, ec) ==>
         SlidesTile(g, n, er, ec, KeyTowards(er, ec, src.0, src.1), tile) &&
         Step(n, er, ec, KeyTowards(er, ec, src.0, src.1)) == src)
  {
  }

  /** The puzzle board is a permutation of 0 .. n * n - 1 with its empty
      cell at (er, ec). */
  ghost predicate PermutationGrid(g: Grid, n: int, er: int, ec: int)
    requires n >= 1 && IsGrid(g, n)
  {
    IsPermutation(Flatten(g, n), n * n) && 0 <= er < n && 0 <= ec < n && g[er][ec] == 0
  }

  /** On a permutation board different cells hold different tiles. */
  lemma CellsDistinct(g: Grid, n: int, er: int, ec: int, r1: int, c1: int, r2: int, c2: int)
    requires n >= 1 && IsGrid(g, n) && PermutationGrid(g, n, er, ec)
    requires 0 <= r1 < n && 0 <= c1 < n && 0 <= r2 < n && 0 <= c2 < n
    ensures g[r1][c1] == g[r2][c2] ==> r1 == r2 && c1 == c2
  {
    var b := Flatten(g, n);
    PermutationLength(b, n * n);
    PermutationFacts(b, n * n);
    FlattenAt(g, n, r1, c1);
    FlattenAt(g, n, r2, c2);
    DistinctIndex(b, r1 * n + c1, r2 * n + c2);
    DivModOfDigit(n, r1, c1);
    DivModOfDigit(n, r2, c2);
  }

  /** Every label 0 .. n * n - 1 is somewhere on a permutation board. */
  lemma TileOnBoard(g: Grid, n: int, er: int, ec: int, v: int)
    requires n >= 1 && IsGrid(g, n) && PermutationGrid(g, n, er, ec) && 0 <= v < n * n
    ensures exists r, c :: 0 <= r < n && 0 <= c < n && g[r][c] == v
  {
    var b := Flatten(g, n);
    PermutationFacts(b, n * n);
    assert v in b;
    var k :| 0 <= k < |b| && b[k] == v;
    FlatIndex(n, k);
    FlattenAt(g, n, k / n, k % n);
  }

  /** Every slide keeps the board a permutation and keeps the parity
      invariant: a board of even parity stays even. */
  lemma SlideKeepsParity(g: Grid, n: int, er: int, ec: int, direction: char)
    requires n >= 1 && IsGrid(g, n) && PermutationGrid(g, n, er, ec)
    ensures var rc := Step(n, er, ec, direction);
      var h := MoveGrid(g, n, er, ec, rc.0, rc.1);
      PermutationGrid(h, n, rc.0, rc.1) &&
      0 in Flatten(g, n) && 0 in Flatten(h, n) &&
      (ParityEven(n, Flatten(h, n)) <==> ParityEven(n, Flatten(g, n)))
  {
    var rc := Step(n, er, ec, direction);
    FlattenAt(g, n, er, ec);
    if rc == (er, ec) {
      MoveGridInPlace(g, n, er, ec);
    } else {
      var e, m := SlideGeometry(g, n, er, ec, direction);
      MoveKeepsParity(n, Flatten(g, n), e, DirectionOf(direction), m);
    }
  }

  /** A slide that moves a tile is the move from the flattened empty cell
      to its neighbour in the key's direction. */
  lemma SlideGeometry(g: Grid, n: int, er: int, ec: int, direction: char) returns (e: int, m: int)
    requires n >= 1 && IsGrid(g, n) && PermutationGrid(g, n, er, ec) && Step(n, er, ec, direction) != (er, ec)
    ensures var b, rc := Flatten(g, n), Step(n, er, ec, direction);
      var h := MoveGrid(g, n, er, ec, rc.0, rc.1);
      0 in b && e == IndexOf(b, 0) && 0 <= DirectionOf(direction) < 4 &&
      m == Neighbour(n, e, DirectionOf(direction)) && 0 <= m < |b| && m != e &&
      0 <= rc.0 < n && 0 <= rc.1 < n && Flatten(h, n) == MakeMove(b, e, m) && h[rc.0][rc.1] == 0
  {
    var rc := Step(n, er, ec, direction);
    var b := Flatten(g, n);
    e := er * n + ec;
    FlattenAt(g, n, er, ec);
    PermutationFacts(b, n * n);
    IndexOfDistinct(b, e);
    StepIsNeighbour(n, er, ec, direction);
    m := rc.0 * n + rc.1;
    FlattenMove(g, n, er, ec, rc.0, rc.1);
    FlattenAt(MoveGrid(g, n, er, ec, rc.0, rc.1), n, rc.0, rc.1);
  }

  // ---------------------------------------------------------------------
  // The solved board.

  /** The tile that belongs at (r, c): r * n + c + 1, and the empty tile in
      the lower-right corner. */
  function Home(n: int, r: int, c: int): int
  {
    if r == n - 1 && c == n - 1 then 0 else r * n + c + 1
  }

  predicate SolvedGrid(g: Grid, n: int)
    requires IsGrid(g, n)
  {
    forall r, c :: 0 <= r < n && 0 <= c < n ==> g[r][c] == Home(n, r, c)
  }

  /** A grid is solved exactly when, read row by row, it is the solved
      board. */
  lemma SolvedGridIsSolvedBoard(g: Grid, n: int)
    requires n >= 1 && IsGrid(g, n)
    ensures SolvedGrid(g, n) <==> Flatten(g, n) == SolvedBoard(n * n)
  {
    var s, t := Flatten(g, n), SolvedBoard(n * n);
    MulAtLeast(n, n);
    if SolvedGrid(g, n) {
      forall k | 0 <= k < n * n
        ensures s[k] == t[k]
      {
        FlatIndex(n, k);
        FlattenAt(g, n, k / n, k % n);
        CellIndexBounds(n, k / n, k % n);
        assert k == n * n - 1 <==> k / n == n - 1 && k % n == n - 1 by {
          DivModOfDigit(n, n - 1, n - 1);
          assert (n - 1) * n + (n - 1) == n * n - 1;
        }
      }
    }
    if s == t {
      forall r, c | 0 <= r < n && 0 <= c < n
        ensures g[r][c] == Home(n, r, c)
      {
        FlattenAt(g, n, r, c);
        assert r * n + c == n * n - 1 <==> r == n - 1 && c == n - 1 by {
          CellIndexBounds(n, r, c);
          DivModOfDigit(n, r, c);
          DivModOfDigit(n, n - 1, n - 1);
          assert (n - 1) * n + (n - 1) == n * n - 1;
        }
      }
    }
  }

  // ---------------------------------------------------------------------
  // Setting up a board.

  /** The board laid out row by row from n * n cells, as `init` lays out
      its array: cell (r, c) is entry r * n + c. */
  function Unflatten(s: seq<int>, n: int): (g: Grid)
    requires n >= 1 && |s| == n * n
    ensures IsGrid(g, n)
  {
    seq(n, r requires 0 <= r < n =>
      seq(n, c requires 0 <= c < n => (CellIndexBounds(n, r, c); s[r * n + c])))
  }

  /** Laying a sequence out and reading it back gives the sequence. */
  lemma FlattenUnflatten(s: seq<int>, n: int)
    requires n >= 1 && |s| == n * n
    ensures Flatten(Unflatten(s, n), n) == s
  {
    var t := Flatten(Unflatten(s, n), n);
    forall k | 0 <= k < n * n
      ensures t[k] == s[k]
    {
      FlatIndex(n, k);
    }
  }

  /** Reading a grid out and laying it back gives the grid. */
  lemma UnflattenFlatten(g: Grid, n: int)
    requires n >= 1 && IsGrid(g, n)
    ensures Unflatten(Flatten(g, n), n) == g
  {
    var h := Unflatten(Flatten(g, n), n);
    forall r, c | 0 <= r < n && 0 <= c < n
      ensures h[r][c] == g[r][c]
    {
      FlattenAt(g, n, r, c);
    }
    GridEquality(h, g, n);
  }

  /** The values 1 .. m in order. */
  function Labels(m: nat): (s: seq<int>)
    ensures |s| == m && forall k :: 0 <= k < m ==> s[k] == k + 1
  {
    seq(m, k => k + 1)
  }

  /** One more label. */
  lemma LabelsSnoc(m: nat)
    ensures multiset(Labels(m + 1)) == multiset(Labels(m)) + multiset{m + 1}
  {
    assert Labels(m + 1) == Labels(m) + [m + 1];
  }

  /** The set-ups `init` knows. "random" is the inside-out Fisher-Yates
      shuffle, given the index it drew at each step. */
  datatype Setup = Random(draws: seq<int>) | Standard | Solved | Trivial | Almost

  /** Step i of the shuffle draws an index from 0 .. i. */
  predicate ValidDraws(draws: seq<int>)
  {
    forall i :: 0 <= i < |draws| ==> 0 <= draws[i] <= i
  }

  /** The shuffled array after |draws| steps: step i moves the entry at the
      drawn index j to the end and puts i + 1 at j. */
  function Shuffled(draws: seq<int>): (s: seq<int>)
    requires ValidDraws(draws)
    ensures |s| == |draws|
  {
    if draws == [] then []
    else
      var i := |draws| - 1;
      DrawsPrefix(draws);
      var s := Shuffled(draws[..i]);
      var j := draws[i];
      if j == i then s + [i + 1] else s[j := i + 1] + [s[j]]
  }

  /** Every prefix of valid draws is valid. */
  lemma DrawsPrefix(draws: seq<int>)
    requires ValidDraws(draws) && draws != []
    ensures ValidDraws(draws[..|draws| - 1])
  {
    var i := |draws| - 1;
    forall k | 0 <= k < i ensures 0 <= draws[..i][k] <= k {
      assert draws[..i][k] == draws[k];
    }
  }

  /** One step of the shuffle adds i + 1 to the labels. */
  lemma ShuffleStep(s: seq<int>, i: int, j: int)
    requires 0 <= j <= i == |s|
    ensures var s' := if j == i then s + [i + 1] else s[j := i + 1] + [s[j]];
      multiset(s') == multiset(s) + multiset{i + 1}
  {
    if j != i {
      assert multiset(s[j := i + 1]) == multiset(s) - multiset{s[j]} + multiset{i + 1};
    }
  }

  /** The shuffle is a permutation of 1 .. |draws|, whatever it draws. */
  lemma {:induction false} ShuffledLabels(draws: seq<int>)
    requires ValidDraws(draws)
    ensures multiset(Shuffled(draws)) == multiset(Labels(|draws|))
  {
    if draws != [] {
      var i := |draws| - 1;
      DrawsPrefix(draws);
      ShuffledLabels(draws[..i]);
      ShuffleStep(Shuffled(draws[..i]), i, draws[i]);
      LabelsSnoc(i);
    }
  }

  /** m, m - 1, ..., 1. */
  function Countdown(m: nat): (s: seq<int>)
    ensures |s| == m && forall k :: 0 <= k < m ==> s[k] == m - k
  {
    seq(m, k => m - k)
  }

  lemma {:induction false} CountdownLabels(m: nat)
    ensures multiset(Countdown(m)) == multiset(Labels(m))
  {
    if m > 0 {
      CountdownLabels(m - 1);
      assert Countdown(m) == [m] + Countdown(m - 1);
      assert Labels(m) == Labels(m - 1) + [m];
    }
  }

  /** `init` accepts a set-up for a board of side n: a shuffle draws one
      index per cell. */
  predicate SetupOK(setup: Setup, n: int)
  {
    n >= 2 && (setup.Random? ==> |setup.draws| == n * n && ValidDraws(setup.draws))
  }

  /** "standard": the tiles count down to the empty cell, and on an even
      side 1 and 2 are exchanged. */
  function StandardArray(n: int): (a: seq<int>)
    requires n >= 2
    ensures |a| == n * n
  {
    var m := n * n;
    MulAtLeast(n, n);
    var a := seq(m, i => m - i - 1)[m - 1 := m];
    if n % 2 == 0 then a[m - 2 := 2][m - 3 := 1] else a
  }

  /** "trivial": one slide from solved, the empty cell one left of its
      corner. */
  function TrivialArray(m: int): (a: seq<int>)
    requires m >= 2
    ensures |a| == m
  {
    seq(m, i => i + 1)[m - 1 := m - 1][m - 2 := m]
  }

  /** "almost": the three cells around the corner of a board of side n,
      m = n * n cells, rotated; q = n * (n - 1) cells precede the last
      row. */
  function AlmostArray(m: int, n: int): (a: seq<int>)
    requires 2 <= n && 2 * n <= m
    ensures |a| == m
  {
    var q := m - n;
    seq(m, i => i + 1)[m - 2 := q - 1][q - 1 := m - 1][q - 2 := q]
  }

  /** The array `init` fills for a board of side n: the values 1 .. n * n
      in cell order, n * n standing for the empty cell. */
  function InitialArray(setup: Setup, n: int): (a: seq<int>)
    requires SetupOK(setup, n)
    ensures |a| == n * n
  {
    MulAtLeast(n, n);
    MulMonotone(n, 2, n);
    match setup
    case Random(draws) => Shuffled(draws)
    case Standard => StandardArray(n)
    case Solved => Labels(n * n)
    case Trivial => TrivialArray(n * n)
    case Almost => AlmostArray(n * n, n)
  }

  /** The standard set-up counts down to the empty cell, exchanging 1 and 2
      on an even side. */
  lemma StandardLabels(n: int)
    requires n >= 2
    ensures multiset(StandardArray(n)) == multiset(Labels(n * n))
  {
    var m := n * n;
    MulAtLeast(n, n);
    var b := seq(m, i => m - i - 1)[m - 1 := m];
    assert b == Countdown(m - 1) + [m];
    assert Labels(m) == Labels(m - 1) + [m];
    CountdownLabels(m - 1);
    if n % 2 == 0 {
      assert StandardArray(n) == Swap(b, m - 2, m - 3);
    }
  }

  /** The almost-solved set-up rotates three cells of the solved array. */
  lemma AlmostLabels(m: int, n: int)
    requires 2 <= n && 2 * n <= m
    ensures multiset(AlmostArray(m, n)) == multiset(Labels(m))
  {
    var q := m - n;
    var a := AlmostArray(m, n);
    var s := Swap(Swap(Labels(m), m - 2, q - 2), q - 1, q - 2);
    forall k | 0 <= k < m
      ensures a[k] == s[k]
    {
    }
    assert a == s;
  }

  /** Every set-up fills the array with a permutation of 1 .. n * n. */
  lemma InitialArrayLabels(setup: Setup, n: int)
    requires SetupOK(setup, n)
    ensures multiset(InitialArray(setup, n)) == multiset(Labels(n * n))
  {
    var m := n * n;
    MulAtLeast(n, n);
    match setup
    case Random(draws) =>
      ShuffledLabels(draws);
    case Standard =>
      StandardLabels(n);
    case Solved =>
    case Trivial =>
      assert TrivialArray(m) == Swap(Labels(m), m - 1, m - 2);
    case Almost =>
      MulMonotone(n, 2, n);
      AlmostLabels(m, n);
  }

  /** The array holds n * n, the empty cell, and no value twice. */
  lemma InitialArrayDistinct(setup: Setup, n: int)
    requires SetupOK(setup, n)
    ensures n * n in InitialArray(setup, n) && Distinct(InitialArray(setup, n))
  {
    InitialArrayLabels(setup, n);
    MulAtLeast(n, n);
    LabelsFacts(InitialArray(setup, n), n * n);
  }

  /** A permutation of 1 .. m: each value once, none outside. */
  lemma LabelsFacts(a: seq<int>, m: nat)
    requires multiset(a) == multiset(Labels(m))
    ensures |a| == m && Distinct(a)
    ensures forall k :: 0 <= k < |a| ==> 1 <= a[k] <= m
    ensures m >= 1 ==> m in a
  {
    assert |a| == |multiset(a)| == |multiset(Labels(m))| == m;
    PairwiseDistinct(Labels(m));
    forall k | 0 <= k < |a| ensures 1 <= a[k] <= m {
      assert a[k] in multiset(a);
      assert a[k] in Labels(m);
    }
    if m >= 1 {
      assert Labels(m)[m - 1] == m;
      assert m in multiset(Labels(m));
    }
  }

  /** The array with the value m turned into the empty tile 0. */
  function Placed(a: seq<int>, m: int): (b: seq<int>)
    ensures |b| == |a|
  {
    seq(|a|, k requires 0 <= k < |a| => if a[k] == m then 0 else a[k])
  }

  /** Placing a permutation of 1 .. m gives a permutation of 0 .. m - 1,
      and relabelling its empty tile as m gives the array back: the sort
      `init` runs on its array counts the inversions of the relabelled
      board. */
  lemma PlacedPermutation(a: seq<int>, m: nat)
    requires m >= 1 && multiset(a) == multiset(Labels(m))
    ensures IsPermutation(Placed(a, m), m) && 0 in Placed(a, m)
    ensures a[IndexOf(Placed(a, m), 0)] == m && Relabelled(Placed(a, m)) == a
  {
    LabelsFacts(a, m);
    var j := IndexOf(a, m);
    var p := Placed(a, m);
    forall k | 0 <= k < m && k != j ensures a[k] != m {
      DistinctIndex(a, k, j);
    }
    assert p == a[j := 0];
    assert p[j] == 0;
    assert multiset(p) == multiset(a) - multiset{m} + multiset{0};
    assert Labels(m) == Labels(m - 1) + [m];
    assert Identity(m) == [0] + Labels(m - 1);
    var e := IndexOf(p, 0);
    assert e == j by {
      assert a[e] == m;
      DistinctIndex(a, e, j);
    }
    assert Relabelled(p) == a;
  }

  /** The board `init` places: the array laid out, n * n as the empty
      tile. */
  function PlacedGrid(setup: Setup, n: int): (g: Grid)
    requires SetupOK(setup, n)
    ensures IsGrid(g, n)
  {
    Unflatten(Placed(InitialArray(setup, n), n * n), n)
  }

  /** The placed board is a permutation of 0 .. n * n - 1, so it has its
      empty tile. */
  lemma PlacedGridPermutation(setup: Setup, n: int)
    requires SetupOK(setup, n)
    ensures IsPermutation(Flatten(PlacedGrid(setup, n), n), n * n)
    ensures 0 in Flatten(PlacedGrid(setup, n), n)
  {
    InitialArrayLabels(setup, n);
    MulAtLeast(n, n);
    PlacedPermutation(InitialArray(setup, n), n * n);
    FlattenUnflatten(Placed(InitialArray(setup, n), n * n), n);
  }

  /** The grid with cells (r1, c1) and (r2, c2) exchanged. */
  function GridSwap(g: Grid, n: int, r1: int, c1: int, r2: int, c2: int): (h: Grid)
    requires IsGrid(g, n) && 0 <= r1 < n && 0 <= c1 < n && 0 <= r2 < n && 0 <= c2 < n
    ensures IsGrid(h, n)
  {
    seq(n, r requires 0 <= r < n =>
      seq(n, c requires 0 <= c < n =>
        if r == r1 && c == c1 then g[r2][c2] else if r == r2 && c == c2 then g[r1][c1] else g[r][c]))
  }

  /** Exchanging grid cells is exchanging entries of the flattened board. */
  lemma FlattenSwap(g: Grid, n: int, r1: int, c1: int, r2: int, c2: int)
    requires n >= 1 && IsGrid(g, n) && 0 <= r1 < n && 0 <= c1 < n && 0 <= r2 < n && 0 <= c2 < n
    ensures 0 <= r1 * n + c1 < n * n && 0 <= r2 * n + c2 < n * n
    ensures Flatten(GridSwap(g, n, r1, c1, r2, c2), n) == Swap(Flatten(g, n), r1 * n + c1, r2 * n + c2)
  {
    var i, j := r1 * n + c1, r2 * n + c2;
    FlattenAt(g, n, r1, c1);
    FlattenAt(g, n, r2, c2);
    var s, t := Flatten(GridSwap(g, n, r1, c1, r2, c2), n), Swap(Flatten(g, n), i, j);
    forall k | 0 <= k < n * n
      ensures s[k] == t[k]
    {
      FlatIndex(n, k);
      DivModOfDigit(n, r1, c1);
      DivModOfDigit(n, r2, c2);
      assert k == i <==> k / n == r1 && k % n == c1;
      assert k == j <==> k / n == r2 && k % n == c2;
    }
  }

  /** `init`'s repair of an odd board: exchange two tiles of the top-left
      corner, never the empty one. */
  function ParityFix(g: Grid, n: int): (h: Grid)
    requires n >= 2 && IsGrid(g, n)
    ensures IsGrid(h, n)
  {
    if g[0][0] != 0 then
      if g[0][1] != 0 then GridSwap(g, n, 0, 0, 0, 1) else GridSwap(g, n, 0, 0, 1, 0)
    else GridSwap(g, n, 0, 1, 1, 0)
  }

  /** Exchanging two tiles, neither of them the empty one, keeps the board
      a permutation with the same empty cell and flips its parity. */
  lemma GridSwapFlips(g: Grid, n: int, er: int, ec: int, r1: int, c1: int, r2: int, c2: int)
    requires n >= 1 && IsGrid(g, n) && PermutationGrid(g, n, er, ec)
    requires 0 <= r1 < n && 0 <= c1 < n && 0 <= r2 < n && 0 <= c2 < n && (r1, c1) != (r2, c2)
    requires g[r1][c1] != 0 && g[r2][c2] != 0
    ensures PermutationGrid(GridSwap(g, n, r1, c1, r2, c2), n, er, ec)
    ensures 0 in Flatten(g, n) && 0 in Flatten(GridSwap(g, n, r1, c1, r2, c2), n)
    ensures ParityEven(n, Flatten(GridSwap(g, n, r1, c1, r2, c2), n)) <==> !ParityEven(n, Flatten(g, n))
  {
    var b := Flatten(g, n);
    var i, j := r1 * n + c1, r2 * n + c2;
    FlattenAt(g, n, er, ec);
    FlattenAt(g, n, r1, c1);
    FlattenAt(g, n, r2, c2);
    assert i != j by {
      DivModOfDigit(n, r1, c1);
      DivModOfDigit(n, r2, c2);
    }
    var h := GridSwap(g, n, r1, c1, r2, c2);
    FlattenSwap(g, n, r1, c1, r2, c2);
    var b' := Flatten(h, n);
    assert |b| == n * n;
    assert IsPermutation(b, n * n);
    assert b[er * n + ec] == 0;
    assert b[i] != 0;
    assert b[j] != 0;
    assert b' == Swap(b, i, j);
    SwapTilesFlips(n, b, b', er * n + ec, i, j);
    FlattenAt(h, n, er, ec);
  }

  /** The repair keeps the board a permutation with the same empty cell,
      and flips its parity: a board of odd parity, which no walk solves, becomes
      one of even parity. */
  lemma ParityFixFlips(g: Grid, n: int, er: int, ec: int)
    requires n >= 2 && IsGrid(g, n) && PermutationGrid(g, n, er, ec)
    ensures PermutationGrid(ParityFix(g, n), n, er, ec)
    ensures 0 in Flatten(g, n) && 0 in Flatten(ParityFix(g, n), n)
    ensures ParityEven(n, Flatten(ParityFix(g, n), n)) <==> !ParityEven(n, Flatten(g, n))
  {
    var b := Flatten(g, n);
    PermutationFacts(b, n * n);
    FlattenAt(g, n, 0, 0);
    FlattenAt(g, n, 0, 1);
    FlattenAt(g, n, 1, 0);
    assert 0 * n + 0 == 0 && 0 * n + 1 == 1 && 1 * n + 0 == n;
    if g[0][0] != 0 {
      if g[0][1] != 0 {
        GridSwapFlips(g, n, er, ec, 0, 0, 0, 1);
      } else {
        DistinctIndex(b, 1, n);
        GridSwapFlips(g, n, er, ec, 0, 0, 1, 0);
      }
    } else {
      DistinctIndex(b, 0, 1);
      DistinctIndex(b, 0, n);
      GridSwapFlips(g, n, er, ec, 0, 1, 1, 0);
    }
  }

  /** The board `init` sets up: the placed board, repaired when its parity
      is odd. */
  function InitialBoard(setup: Setup, n: int): (g: Grid)
    requires SetupOK(setup, n)
    ensures IsGrid(g, n)
  {
    var p := PlacedGrid(setup, n);
    PlacedGridPermutation(setup, n);
    if ParityEven(n, Flatten(p, n)) then p else ParityFix(p, n)
  }

  /** Whatever the set-up, `init` sets up a permutation board that keeps
      the parity invariant: the condition every solvable board meets (see
      `OddParityUnsolvable`; that even parity also suffices is not proved
      here). */
  lemma InitialBoardEvenParity(setup: Setup, n: int)
    requires SetupOK(setup, n)
    ensures IsPermutation(Flatten(InitialBoard(setup, n), n), n * n)
    ensures 0 in Flatten(InitialBoard(setup, n), n)
    ensures ParityEven(n, Flatten(InitialBoard(setup, n), n))
  {
    var p := PlacedGrid(setup, n);
    PlacedGridPermutation(setup, n);
    var b := Flatten(p, n);
    PermutationFacts(b, n * n);
    var e := IndexOf(b, 0);
    FlatIndex(n, e);
    FlattenAt(p, n, e / n, e % n);
    if !ParityEven(n, b) {
      ParityFixFlips(p, n, e / n, e % n);
    }
  }

  /** "solved" sets up the solved board, which needs no repair. */
  lemma SolvedSetup(n: int)
    requires n >= 2
    ensures SolvedGrid(InitialBoard(Solved, n), n)
  {
    var m := n * n;
    MulAtLeast(n, n);
    assert Placed(Labels(m), m) == SolvedBoard(m);
    FlattenUnflatten(SolvedBoard(m), n);
    SolvedParityEven(n);
    SolvedGridIsSolvedBoard(PlacedGrid(Solved, n), n);
  }

  /** The "trivial" array, placed, is the solved board after 'r', and 'l'
      takes it back. */
  lemma TrivialPlaced(m: int)
    requires m >= 2
    ensures var s, t := SolvedBoard(m), Placed(TrivialArray(m), m);
      t == MakeMove(s, m - 1, m - 2) && MakeMove(t, m - 2, m - 1) == s
  {
  }

  /** Sliding the tile left of the empty corner of the solved board keeps
      the parity invariant. */
  lemma SolvedSlideRight(n: int)
    requires n >= 2
    ensures n * n >= 2
    ensures var t := MakeMove(SolvedBoard(n * n), n * n - 1, n * n - 2);
      0 in t && ParityEven(n, t)
  {
    var m := n * n;
    MulAtLeast(n, n);
    var s := SolvedBoard(m);
    SolvedIsPermutation(m);
    SolvedParityEven(n);
    assert IndexOf(s, 0) == m - 1 by {
      forall k | 0 <= k < m - 1 ensures s[k] != 0 { }
    }
    NeighbourIsAdjacent(n, n - 1, n - 1, Left);
    assert (n - 1) * n + (n - 1) == m - 1;
    MoveKeepsParity(n, s, m - 1, Left, m - 2);
  }

  /** "trivial" sets up the board one 'l' from solved: the empty cell is
      one left of the lower-right corner, the parity needs no repair, and
      sliding the corner tile left solves the board. */
  lemma TrivialSetup(n: int)
    requires n >= 2
    ensures var g := InitialBoard(Trivial, n);
      g[n - 1][n - 2] == 0 && Step(n, n - 1, n - 2, 'l') == (n - 1, n - 1) &&
      SolvedGrid(MoveGrid(g, n, n - 1, n - 2, n - 1, n - 1), n)
  {
    TrivialInitial(n);
    TrivialMove(InitialBoard(Trivial, n), n);
  }

  /** A board that flattens to the solved board with its corner tile slid
      right has its empty cell left of the corner, and sliding the corner
      tile back solves it. */
  lemma TrivialMove(g: Grid, n: int)
    requires n >= 2 && IsGrid(g, n)
    requires var s, t := SolvedBoard(n * n), Flatten(g, n);
      n * n >= 2 && t == MakeMove(s, n * n - 1, n * n - 2) && MakeMove(t, n * n - 2, n * n - 1) == s
    ensures g[n - 1][n - 2] == 0 && SolvedGrid(MoveGrid(g, n, n - 1, n - 2, n - 1, n - 1), n)
  {
    var m := n * n;
    FlattenAt(g, n, n - 1, n - 2);
    assert (n - 1) * n + (n - 2) == m - 2;
    FlattenMove(g, n, n - 1, n - 2, n - 1, n - 1);
    assert (n - 1) * n + (n - 1) == m - 1;
    SolvedGridIsSolvedBoard(MoveGrid(g, n, n - 1, n - 2, n - 1, n - 1), n);
  }

  /** The "trivial" board needs no parity repair, and flattened it is the
      solved board with its corner tile slid right. */
  lemma TrivialInitial(n: int)
    requires n >= 2
    ensures n * n >= 2
    ensures InitialBoard(Trivial, n) == PlacedGrid(Trivial, n)
    ensures var s, t := SolvedBoard(n * n), Flatten(PlacedGrid(Trivial, n), n);
      t == MakeMove(s, n * n - 1, n * n - 2) && MakeMove(t, n * n - 2, n * n - 1) == s
  {
    var m := n * n;
    SolvedSlideRight(n);
    TrivialPlaced(m);
    var t := Placed(TrivialArray(m), m);
    FlattenUnflatten(t, n);
    assert Flatten(PlacedGrid(Trivial, n), n) == t;
  }

  /** The sort's count of exchanges plus the empty cell's taxicab distance
      is even exactly when the placed board keeps the parity invariant:
      the test `init` makes. */
  lemma SortCountParity(setup: Setup, n: int, sorted: seq<int>, count: int, er: int, ec: int, taxicab: int)
    requires SetupOK(setup, n) && 0 <= er < n && 0 <= ec < n && PlacedGrid(setup, n)[er][ec] == 0
    requires |sorted| == n * n && SortedRange(sorted, 0, n * n - 1)
    requires Distinct(InitialArray(setup, n)) ==> Tracked(InitialArray(setup, n), sorted, count)
    requires taxicab == (n - 1) - er + (n - 1) - ec
    ensures 0 in Flatten(PlacedGrid(setup, n), n)
    ensures (count + taxicab) % 2 == 0 <==> ParityEven(n, Flatten(PlacedGrid(setup, n), n))
  {
    var a := InitialArray(setup, n);
    var m := n * n;
    MulAtLeast(n, n);
    InitialArrayLabels(setup, n);
    LabelsFacts(a, m);
    PlacedPermutation(a, m);
    var p := Placed(a, m);
    FlattenUnflatten(p, n);
    FlattenAt(PlacedGrid(setup, n), n, er, ec);
    PermutationFacts(p, m);
    IndexOfDistinct(p, er * n + ec);
    RowColOfCell(n, er, ec);
    SortedNoInversions(sorted);
    CountParity(count, Inversions(a), Inversions(sorted), taxicab);
  }

  /** The inside-out shuffle of `init`: step i draws j from 0 .. i, moves
      the entry at j to i and puts i + 1 at j. */
  method ShuffleArray(draws: seq<int>) returns (a: array<int>)
    requires ValidDraws(draws)
    ensures fresh(a) && a[..] == Shuffled(draws)
  {
    a := new int[|draws|];
    for i := 0 to |draws|
      invariant a[..i] == Shuffled(draws[..i])
    {
      var j := draws[i];
      assert draws[..i + 1][..i] == draws[..i] && draws[..i + 1][i] == j;
      if j != i {
        a[i] := a[j];
      }
      a[j] := i + 1;
    }
    assert draws[..|draws|] == draws;
  }

  /** The array 1 .. m. */
  method CountingArray(m: nat) returns (a: array<int>)
    ensures fresh(a) && a[..] == Labels(m)
  {
    a := new int[m];
    for i := 0 to m
      invariant a[..i] == Labels(i)
    {
      a[i] := i + 1;
    }
  }

  /** The standard array of a board of side n. */
  method StandardValues(n: int) returns (a: array<int>)
    requires n >= 2
    ensures fresh(a) && a[..] == StandardArray(n)
  {
    var m := n * n;
    MulAtLeast(n, n);
    a := new int[m];
    for i := 0 to m
      invariant forall k :: 0 <= k < i ==> a[k] == m - k - 1
    {
      a[i] := m - i - 1;
    }
    a[m - 1] := m;
    if n % 2 == 0 {
      a[m - 2] := 2;
      a[m - 3] := 1;
    }
  }

  // ---------------------------------------------------------------------
  // The global puzzle.

  /** `struct puzzle`: the board, its side, where the empty cell is and how
      many moves have been made. */
  class Puzzle {
    /** `p.dim`. */
    const dim: int
    /** `p.board`, cell (row, col) at `board[row, col]`. */
    const board: array2<int>
    var emptyRow: int
    var emptyCol: int
    var moveNumber: int

    /** The board is `dim` x `dim` and the empty cell holds 0. */
    ghost predicate Valid()
      reads this, board
    {
      2 <= dim <= DimMax && board.Length0 == dim && board.Length1 == dim &&
      0 <= emptyRow < dim && 0 <= emptyCol < dim && board[emptyRow, emptyCol] == 0
    }

    /** The board's contents. */
    ghost function Tiles(): (g: Grid)
      reads this, board
      requires board.Length0 == dim && board.Length1 == dim
      ensures IsGrid(g, dim)
    {
      seq(dim, r requires 0 <= r < dim reads board =>
        seq(dim, c requires 0 <= c < dim reads board => board[r, c]))
    }

    /** A puzzle of side `n`, all cells 0 until `Init` sets it up. */
    constructor (n: int)
      requires 2 <= n <= DimMax
      ensures Valid() && dim == n && fresh(board) && moveNumber == 0
    {
      dim := n;
      board := new int[n, n]((r, c) => 0);
      emptyRow, emptyCol, moveNumber := 0, 0, 0;
    }

    /** The array of `init` for the set-up. */
    method FillArray(setup: Setup) returns (a: array<int>)
      requires SetupOK(setup, dim)
      ensures fresh(a) && a[..] == InitialArray(setup, dim)
    {
      var m := dim * dim;
      MulAtLeast(dim, dim);
      MulMonotone(dim, 2, dim);
      match setup
      case Random(draws) =>
        a := ShuffleArray(draws);
      case Standard =>
        a := StandardValues(dim);
      case Solved =>
        a := CountingArray(m);
      case Trivial =>
        a := CountingArray(m);
        a[m - 1] := m - 1;
        a[m - 2] := m;
      case Almost =>
        a := CountingArray(m);
        var q := dim * (dim - 1);
        assert q == m - dim;
        a[m - 2] := q - 1;
        a[q - 1] := m - 1;
        a[q - 2] := q;
    }

    /** The board laid out from the array, the value dim * dim becoming the
        empty cell, whose position is recorded. */
    method PlaceTiles(a: array<int>)
      requires 2 <= dim <= DimMax && board.Length0 == dim && board.Length1 == dim
      requires a.Length == dim * dim && dim * dim in a[..]
      modifies this, board
      ensures Valid() && moveNumber == old(moveNumber)
      ensures Tiles() == Unflatten(Placed(a[..], dim * dim), dim)
    {
      ghost var g := Unflatten(Placed(a[..], dim * dim), dim);
      ghost var j := IndexOf(a[..], dim * dim);
      for row := 0 to dim
        invariant forall r, c :: 0 <= r < row && 0 <= c < dim ==> board[r, c] == g[r][c]
        invariant j < row * dim ==> 0 <= emptyRow < row && 0 <= emptyCol < dim && board[emptyRow, emptyCol] == 0
        invariant moveNumber == old(moveNumber)
      {
        PlaceRow(a, row, g, j);
      }
      GridEquality(Tiles(), g, dim);
    }

    /** Row `row` of the board laid out from the array; j is where the
        array holds the empty cell's value. */
    method PlaceRow(a: array<int>, row: int, ghost g: Grid, ghost j: int)
      requires 2 <= dim && board.Length0 == dim && board.Length1 == dim && 0 <= row < dim
      requires a.Length == dim * dim && g == Unflatten(Placed(a[..], dim * dim), dim)
      requires 0 <= j < a.Length && a[j] == dim * dim
      requires forall r, c :: 0 <= r < row && 0 <= c < dim ==> board[r, c] == g[r][c]
      requires j < row * dim ==> 0 <= emptyRow < row && 0 <= emptyCol < dim && board[emptyRow, emptyCol] == 0
      modifies this, board
      ensures forall r, c :: 0 <= r <= row && 0 <= c < dim ==> board[r, c] == g[r][c]
      ensures j < (row + 1) * dim ==> 0 <= emptyRow <= row && 0 <= emptyCol < dim && board[emptyRow, emptyCol] == 0
      ensures moveNumber == old(moveNumber)
    {
      var m := dim * dim;
      for col := 0 to dim
        invariant forall r, c :: 0 <= r < row && 0 <= c < dim ==> board[r, c] == g[r][c]
        invariant forall c :: 0 <= c < col ==> board[row, c] == g[row][c]
        invariant j < row * dim + col ==>
          (emptyRow < row || (emptyRow == row && emptyCol < col)) &&
          0 <= emptyRow && 0 <= emptyCol < dim && board[emptyRow, emptyCol] == 0
        invariant moveNumber == old(moveNumber)
      {
        CellIndexBounds(dim, row, col);
        assert g[row][col] == if a[row * dim + col] == m then 0 else a[row * dim + col];
        if a[row * dim + col] == m {
          board[row, col] := 0;
          emptyRow, emptyCol := row, col;
        } else {
          board[row, col] := a[row * dim + col];
        }
      }
      assert (row + 1) * dim == row * dim + dim;
    }

    /** The cells (r1, c1) and (r2, c2) exchange their tiles. */
    method Exchange(r1: int, c1: int, r2: int, c2: int)
      requires board.Length0 == dim && board.Length1 == dim
      requires 0 <= r1 < dim && 0 <= c1 < dim && 0 <= r2 < dim && 0 <= c2 < dim
      modifies board
      ensures Tiles() == GridSwap(old(Tiles()), dim, r1, c1, r2, c2)
    {
      ghost var g := Tiles();
      var temp := board[r1, c1];
      board[r1, c1] := board[r2, c2];
      board[r2, c2] := temp;
      GridEquality(Tiles(), GridSwap(g, dim, r1, c1, r2, c2), dim);
    }

    /** `init`'s repair: exchange two tiles of the top-left corner, neither
        of them the empty one. */
    method FixParity()
      requires Valid() && PermutationGrid(Tiles(), dim, emptyRow, emptyCol)
      modifies board
      ensures Valid() && Tiles() == ParityFix(old(Tiles()), dim)
    {
      ghost var g := Tiles();
      if board[0, 0] != 0 {
        if board[0, 1] != 0 {
          Exchange(0, 0, 0, 1);
        } else {
          Exchange(0, 0, 1, 0);
        }
      } else {
        Exchange(0, 1, 1, 0);
      }
      ParityFixFlips(g, dim, emptyRow, emptyCol);
    }

    /** `init`: fill the array for the set-up, lay it out, and when the sort's
        count of exchanges plus the empty cell's taxicab distance is odd,
        repair the board. The board then keeps the parity invariant. */
    method Init(setup: Setup)
      requires Valid() && SetupOK(setup, dim)
      modifies this, board
      ensures Valid() && moveNumber == 0
      ensures Tiles() == InitialBoard(setup, dim)
      ensures PermutationGrid(Tiles(), dim, emptyRow, emptyCol) && 0 in Flatten(Tiles(), dim)
      ensures ParityEven(dim, Flatten(Tiles(), dim))
    {
      var a := FillArray(setup);
      InitialArrayDistinct(setup, dim);
      PlaceTiles(a);
      ghost var placed := Tiles();
      assert placed == PlacedGrid(setup, dim);
      moveNumber := 0;
      var swapCount, taxicab := CountExchanges(a, setup);
      assert Tiles() == placed;
      PlacedGridPermutation(setup, dim);
      ghost var even := ParityEven(dim, Flatten(placed, dim));
      assert InitialBoard(setup, dim) == if even then placed else ParityFix(placed, dim);
      assert PermutationGrid(placed, dim, emptyRow, emptyCol);
      if (swapCount + taxicab) % 2 != 0 {
        FixParity();
        assert Tiles() == ParityFix(placed, dim);
      }
      InitialBoardEvenParity(setup, dim);
    }

    /** The quicksort of the placed array, with its count of exchanges, and
        the empty cell's taxicab distance from the lower-right corner: their
        sum is even exactly when the placed board keeps the parity
        invariant. */
    method CountExchanges(a: array<int>, ghost setup: Setup) returns (swapCount: int, taxicab: int)
      requires Valid() && SetupOK(setup, dim) && a[..] == InitialArray(setup, dim)
      requires Tiles() == PlacedGrid(setup, dim)
      modifies a
      ensures taxicab == Taxicab(dim, emptyRow, emptyCol) && 0 in Flatten(PlacedGrid(setup, dim), dim)
      ensures (swapCount + taxicab) % 2 == 0 <==> ParityEven(dim, Flatten(PlacedGrid(setup, dim), dim))
    {
      MulAtLeast(dim, dim);
      assert Tiles()[emptyRow][emptyCol] == 0;
      swapCount := Quicksort(a, 0, dim * dim - 1, 0);
      taxicab := (dim - 1) - emptyRow + (dim - 1) - emptyCol;
      SortCountParity(setup, dim, a[..], swapCount, emptyRow, emptyCol, taxicab);
    }

    /** The tile at (r, c) slides into the empty cell, which moves to
        (r, c), and the move is counted. */
    method MoveFrom(r: int, c: int)
      requires Valid() && 0 <= r < dim && 0 <= c < dim && (r, c) != (emptyRow, emptyCol)
      modifies this, board
      ensures Valid() && emptyRow == r && emptyCol == c && moveNumber == old(moveNumber) + 1
      ensures Tiles() == MoveGrid(old(Tiles()), dim, old(emptyRow), old(emptyCol), r, c)
    {
      ghost var g, er, ec := Tiles(), emptyRow, emptyCol;
      var tile := board[r, c];
      board[emptyRow, emptyCol] := tile;
      board[r, c] := 0;
      emptyRow, emptyCol := r, c;
      moveNumber := moveNumber + 1;
      GridEquality(Tiles(), MoveGrid(g, dim, er, ec, r, c), dim);
    }

    /** `slide`: the key's move when its bounds test passes, otherwise
        nothing. */
    method Slide(direction: char)
      requires Valid()
      modifies this, board
      ensures Valid()
      ensures (emptyRow, emptyCol) == Step(dim, old(emptyRow), old(emptyCol), direction)
      ensures Tiles() == MoveGrid(old(Tiles()), dim, old(emptyRow), old(emptyCol), emptyRow, emptyCol)
      ensures moveNumber == old(moveNumber) + if (emptyRow, emptyCol) == (old(emptyRow), old(emptyCol)) then 0 else 1
    {
      if direction == 'l' && emptyCol < dim - 1 {
        MoveFrom(emptyRow, emptyCol + 1);
      } else if direction == 'r' && emptyCol > 0 {
        MoveFrom(emptyRow, emptyCol - 1);
      } else if direction == 'u' && emptyRow < dim - 1 {
        MoveFrom(emptyRow + 1, emptyCol);
      } else if direction == 'd' && emptyRow > 0 {
        MoveFrom(emptyRow - 1, emptyCol);
      } else {
        MoveGridInPlace(Tiles(), dim, emptyRow, emptyCol);
      }
    }

    /** `slide_tile`: the tile moves when one of the empty cell's
        neighbours holds it. */
    method SlideTile(tile: int)
      requires Valid()
      modifies this, board
      ensures Valid()
      ensures (emptyRow, emptyCol) == TileSource(old(Tiles()), dim, old(emptyRow), old(emptyCol), tile)
      ensures Tiles() == MoveGrid(old(Tiles()), dim, old(emptyRow), old(emptyCol), emptyRow, emptyCol)
      ensures moveNumber == old(moveNumber) + if (emptyRow, emptyCol) == (old(emptyRow), old(emptyCol)) then 0 else 1
    {
      var tileRow, tileCol := FindTile(tile);
      if tileRow != -1 && tileCol != -1 {
        MoveFrom(tileRow, tileCol);
      } else {
        MoveGridInPlace(Tiles(), dim, emptyRow, emptyCol);
      }
    }

    /** The neighbour of the empty cell that `slide_tile` takes `tile`
        from, or (-1, -1) when no neighbour holds it. */
    method FindTile(tile: int) returns (tileRow: int, tileCol: int)
      requires Valid()
      ensures tileRow == -1 <==> tileCol == -1
      ensures var src := TileSource(Tiles(), dim, emptyRow, emptyCol, tile);
        if tileRow == -1 then src == (emptyRow, emptyCol) else src == (tileRow, tileCol) && src != (emptyRow, emptyCol)
    {
      tileRow, tileCol := -1, -1;
      if emptyCol < dim - 1 && tile == board[emptyRow, emptyCol + 1] {
        tileRow, tileCol := emptyRow, emptyCol + 1;
      }
      if emptyCol > 0 && tile == board[emptyRow, emptyCol - 1] {
        tileRow, tileCol := emptyRow, emptyCol - 1;
      }
      if emptyRow < dim - 1 && tile == board[emptyRow + 1, emptyCol] {
        tileRow, tileCol := emptyRow + 1, emptyCol;
      }
      if emptyRow > 0 && tile == board[emptyRow - 1, emptyCol] {
        tileRow, tileCol := emptyRow - 1, emptyCol;
      }
    }

    /** `is_solved`: the lower-right cell is empty and every other cell
        holds its own tile. */
    method IsSolved() returns (solved: bool)
      requires Valid()
      ensures solved <==> SolvedGrid(Tiles(), dim)
    {
      if board[dim - 1, dim - 1] != 0 {
        assert Tiles()[dim - 1][dim - 1] != Home(dim, dim - 1, dim - 1);
        return false;
      }
      for row := 0 to dim
        invariant forall r, c :: 0 <= r < row && 0 <= c < dim ==> board[r, c] == Home(dim, r, c)
      {
        for col := 0 to dim
          invariant forall r, c :: 0 <= r < row && 0 <= c < dim ==> board[r, c] == Home(dim, r, c)
          invariant forall c :: 0 <= c < col ==> board[row, c] == Home(dim, row, c)
        {
          if board[row, col] != row * dim + col + 1 && (row != dim - 1 || col != dim - 1) {
            assert Tiles()[row][col] != Home(dim, row, col);
            return false;
          }
        }
      }
      return true;
    }

    /** `permuation_rank` of logic.c: the rank of a 3x3 board read row by
        row, the number under which the 3x3 solution graph stores it. */
    method BoardRank() returns (rank: int)
      requires Valid() && dim == 3 && IsPermutation(Flatten(Tiles(), 3), 9)
      ensures rank == Rank(Flatten(Tiles(), 3)) && 0 <= rank < Factorial(9)
    {
      ghost var b := Flatten(Tiles(), 3);
      var cells := [];
      for i := 0 to 9
        invariant cells == b[..i]
      {
        FlatIndex(3, i);
        cells := cells + [board[i / 3, i % 3]];
      }
      assert cells == b;
      rank := PermutationRank(cells);
      RankBelowFactorial(cells);
    }
  }
}
