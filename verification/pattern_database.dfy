/** The 4x4 pattern-database generator: for one tile pattern, a search
    from the solved placement of the pattern tiles over boards that hold the
    pattern tiles, the empty tile 0 and the wildcard 255 everywhere else. A
    move costs 1 when it slides a pattern tile and 0 when it slides a
    wildcard. The `visited` table, indexed by the positions of the empty tile
    and the pattern tiles, keeps the least cost found per board; a board is
    queued again whenever its cost strictly improves. The heuristic table,
    indexed by the positions of the pattern tiles alone, keeps the least
    cost over the positions of the empty tile. */
module PatternDatabase {
  import opened Common
  import opened Geometry
  import opened PatternIndex
  import opened Queues

  /** The label of every tile outside the pattern, and the "not reached"
      value of both tables (`UINT8_MAX`). */
  const Wildcard := 255

  const Side4 := 4
  const Cells4 := 16

  /** A search node: the board, the cell of its empty tile and the cost of
      the pattern moves that reached it. */
  datatype PNode = PNode(board: seq<int>, emptyIndex: int, cost: int)

  /** The tiles `visited` is indexed by: the empty tile, then the pattern. */
  function Labels(tiles: seq<int>): (labels: seq<int>)
    ensures |labels| == |tiles| + 1
  {
    [0] + tiles
  }

  /** A pattern of at most six distinct tiles from 1 .. 15. */
  ghost predicate TilesOK(tiles: seq<int>)
  {
    1 <= |tiles| <= 6 && Distinct(tiles) && forall i :: 0 <= i < |tiles| ==> 1 <= tiles[i] < Cells4
  }

  /** A board of the search: the empty tile and each pattern tile exactly
      once, and the wildcard in every other cell. */
  ghost predicate PatternBoard(b: seq<int>, tiles: seq<int>)
  {
    |tiles| <= 6 && |b| == Cells4 &&
    (forall j :: 0 <= j < Cells4 ==> b[j] == Wildcard || b[j] in Labels(tiles)) &&
    (forall i :: 0 <= i < |tiles| + 1 ==> multiset(b)[Labels(tiles)[i]] == 1)
  }

  /** The cost of sliding the tile `tile`: 1 for a pattern tile, 0 for a
      wildcard. */
  function Weight(tile: int): int
  {
    if tile != Wildcard then 1 else 0
  }

  /** The `visited` index of a board and its heuristic-slice index. */
  ghost function VIndex(b: seq<int>, tiles: seq<int>): int
  {
    Index(b, Labels(tiles), false, false)
  }

  ghost function PIndex(b: seq<int>, tiles: seq<int>): int
  {
    Index(b, tiles, false, false)
  }

  // ---------------------------------------------------------------------
  // Pattern boards and their indices.

  lemma LabelsOnce(b: seq<int>, tiles: seq<int>)
    requires PatternBoard(b, tiles)
    ensures OnceAtMost(b, Labels(tiles)) && OnceAtMost(b, tiles)
    ensures forall i :: 0 <= i < |tiles| + 1 ==> Labels(tiles)[i] in b
  {
    forall i | 0 <= i < |tiles| ensures multiset(b)[tiles[i]] <= 1 {
      assert tiles[i] == Labels(tiles)[i + 1];
    }
    forall i | 0 <= i < |tiles| + 1 ensures Labels(tiles)[i] in b {
      assert Labels(tiles)[i] in multiset(b);
    }
  }

  /** Both indices of a search board fit their tables: `visited` has 16^7
      entries and a pattern slice 16^n. */
  lemma IndicesFit(b: seq<int>, tiles: seq<int>)
    requires PatternBoard(b, tiles)
    ensures 0 <= VIndex(b, tiles) < VisitedStates
    ensures 0 <= PIndex(b, tiles) < Pow(BoardCells, |tiles|)
  {
    LabelsOnce(b, tiles);
    IndexBound(b, Labels(tiles), false, false);
    IndexBound(b, tiles, false, false);
    PowMonotone(|tiles| + 1, 7);
    PowersOf16();
  }

  /** A search board is determined by where its labels sit. */
  lemma SamePositionsSameBoard(b1: seq<int>, b2: seq<int>, tiles: seq<int>)
    requires PatternBoard(b1, tiles) && PatternBoard(b2, tiles)
    requires forall i :: 0 <= i < |tiles| + 1 ==>
      Labels(tiles)[i] in b1 && Labels(tiles)[i] in b2 && IndexOf(b1, Labels(tiles)[i]) == IndexOf(b2, Labels(tiles)[i])
    ensures b1 == b2
  {
    var ls := Labels(tiles);
    forall j | 0 <= j < Cells4 ensures b1[j] == b2[j] {
      if b1[j] != Wildcard {
        var i :| 0 <= i < |ls| && ls[i] == b1[j];
        OnceIndex(b1, ls[i], j, IndexOf(b1, ls[i]));
      } else if b2[j] != Wildcard {
        var i :| 0 <= i < |ls| && ls[i] == b2[j];
        OnceIndex(b2, ls[i], j, IndexOf(b2, ls[i]));
      }
    }
  }

  /** Different search boards have different `visited` indices. */
  lemma VIndexInjective(b1: seq<int>, b2: seq<int>, tiles: seq<int>)
    requires PatternBoard(b1, tiles) && PatternBoard(b2, tiles) && VIndex(b1, tiles) == VIndex(b2, tiles)
    ensures b1 == b2
  {
    var ls := Labels(tiles);
    LabelsOnce(b1, tiles);
    LabelsOnce(b2, tiles);
    ScansAgree(b1, ls);
    ScansAgree(b2, ls);
    assert Index(b1, ls, true, false) == Index(b2, ls, true, false);
    IndexDeterminesCells(b1, b2, ls);
    SamePositionsSameBoard(b1, b2, tiles);
  }

  /** The empty cell of a search board is where 0 is. */
  lemma EmptyCell(b: seq<int>, tiles: seq<int>, e: int)
    requires PatternBoard(b, tiles) && 0 <= e < Cells4 && b[e] == 0
    ensures 0 in b && IndexOf(b, 0) == e
  {
    assert Labels(tiles)[0] == 0;
    OnceIndex(b, 0, e, IndexOf(b, 0));
  }

  /** A move out of the empty cell keeps a search board a search board, with
      its empty cell moved to `m`. */
  lemma MoveKeepsPatternBoard(b: seq<int>, tiles: seq<int>, e: int, m: int)
    requires PatternBoard(b, tiles) && 0 <= e < Cells4 && 0 <= m < Cells4 && e != m && b[e] == 0
    ensures PatternBoard(MakeMove(b, e, m), tiles) && MakeMove(b, e, m)[m] == 0
  {
    MoveIsSwap(b, e, m);
  }

  // ---------------------------------------------------------------------
  // The root.

  /** The root board: every pattern tile t in its home cell t - 1, the empty
      tile in the last cell, the wildcard elsewhere. */
  function RootBoard(tiles: seq<int>): (b: seq<int>)
    ensures |b| == Cells4 && b[Cells4 - 1] == 0 && 0 in b
  {
    seq(Cells4, j => if j == Cells4 - 1 then 0 else if j + 1 in tiles then j + 1 else Wildcard)
  }

  lemma {:induction false} CountInRoot(tiles: seq<int>, x: int, n: nat)
    requires n <= Cells4 && TilesOK(tiles) && x != Wildcard
    ensures multiset(RootBoard(tiles)[..n])[x] ==
      if x == 0 then (if n == Cells4 then 1 else 0)
      else if x in tiles && x <= n then 1 else 0
  {
    if n > 0 {
      CountInRoot(tiles, x, n - 1);
      assert RootBoard(tiles)[..n] == RootBoard(tiles)[..n - 1] + [RootBoard(tiles)[n - 1]];
    }
  }

  /** The root is a search board. */
  lemma RootIsPatternBoard(tiles: seq<int>)
    requires TilesOK(tiles)
    ensures PatternBoard(RootBoard(tiles), tiles)
    ensures RootBoard(tiles)[Cells4 - 1] == 0
  {
    var r := RootBoard(tiles);
    assert r[..Cells4] == r;
    forall i | 0 <= i < |tiles| + 1 ensures multiset(r)[Labels(tiles)[i]] == 1 {
      CountInRoot(tiles, Labels(tiles)[i], Cells4);
      if i > 0 {
        assert Labels(tiles)[i] == tiles[i - 1];
      }
    }
    forall j | 0 <= j < Cells4 ensures r[j] == Wildcard || r[j] in Labels(tiles) {
      if j + 1 in tiles && j != Cells4 - 1 {
        assert r[j] in Labels(tiles)[1..];
      }
    }
  }

  /** Writes the root board the way `bfs_tile_pattern` does: wildcards,
      then each pattern tile in its home cell, then the empty tile. */
  method BuildRoot(tiles: seq<int>) returns (board: array<int>)
    requires TilesOK(tiles)
    ensures fresh(board) && board[..] == RootBoard(tiles)
  {
    board := new int[Cells4];
    for i := 0 to Cells4
      invariant forall j :: 0 <= j < i ==> board[j] == Wildcard
    {
      board[i] := Wildcard;
    }
    for i := 0 to |tiles|
      invariant forall j :: 0 <= j < Cells4 ==> board[j] == if j + 1 in tiles[..i] then j + 1 else Wildcard
    {
      assert tiles[..i + 1] == tiles[..i] + [tiles[i]];
      board[tiles[i] - 1] := tiles[i];
    }
    assert tiles[..|tiles|] == tiles;
    board[Cells4 - 1] := 0;
  }

  // ---------------------------------------------------------------------
  // Costs along a sequence of moves.

  /** The pattern cost of those moves: one per pattern tile slid. */
  function PathCost(b: seq<int>, dirs: seq<int>): (c: nat)
    requires |b| == Cells4 && 0 in b
    decreases |dirs|
  {
    if dirs == [] then 0
    else
      var e, d := IndexOf(b, 0), dirs[0];
      if 0 <= d < 4 && Neighbour(Side4, e, d) != -1 then
        var m := Neighbour(Side4, e, d);
        assert MakeMove(b, e, m)[m] == 0;
        Weight(b[m]) + PathCost(MakeMove(b, e, m), dirs[1..])
      else PathCost(b, dirs[1..])
  }

  // ---------------------------------------------------------------------
  // The state of the search.

  /** The least cost recorded for a board (255 when not reached). */
  ghost function Value(visited: seq<Byte>, b: seq<int>, tiles: seq<int>): (c: int)
    requires |visited| == VisitedStates && PatternBoard(b, tiles)
    ensures 0 <= c <= Wildcard
  {
    IndicesFit(b, tiles);
    visited[VIndex(b, tiles)] as int
  }

  /** The heuristic entry of a board's pattern placement. */
  ghost function HValue(heur: seq<Byte>, b: seq<int>, p: TilePattern): (c: int)
    requires p.arrayOffset + Pow(BoardCells, |p.tiles|) <= |heur| && PatternBoard(b, p.tiles)
    ensures 0 <= c <= Wildcard
  {
    IndicesFit(b, p.tiles);
    heur[p.arrayOffset + PIndex(b, p.tiles)] as int
  }

  ghost predicate Known(visited: seq<Byte>, b: seq<int>, tiles: seq<int>)
  {
    |visited| == VisitedStates && PatternBoard(b, tiles) && Value(visited, b, tiles) != Wildcard
  }

  /** The move in direction `d` from `b` (empty cell `e`), if any, leads to a
      board recorded at cost at most `c` plus the move's cost. */
  ghost predicate StepRelaxed(visited: seq<Byte>, b: seq<int>, tiles: seq<int>, e: int, c: int, d: int)
    requires |visited| == VisitedStates && PatternBoard(b, tiles) && 0 <= e < Cells4 && b[e] == 0 && 0 <= d < 4
  {
    var m := Neighbour(Side4, e, d);
    m != -1 ==>
      0 <= m < Cells4 && m != e && PatternBoard(MakeMove(b, e, m), tiles) &&
      Value(visited, MakeMove(b, e, m), tiles) <= c + Weight(b[m])
  }

  /** Every move from a reached board leads to a board recorded at most one
      move's cost further. */
  ghost predicate Relaxed(visited: seq<Byte>, b: seq<int>, tiles: seq<int>)
    requires Known(visited, b, tiles)
  {
    0 in b ==> forall d :: 0 <= d < 4 ==>
      StepRelaxed(visited, b, tiles, IndexOf(b, 0), Value(visited, b, tiles), d)
  }

  /** A queued node: a search board, its empty cell, a cost below 255 that
      is at least the recorded one. */
  ghost predicate NodeOK(visited: seq<Byte>, n: PNode, tiles: seq<int>)
  {
    |visited| == VisitedStates && PatternBoard(n.board, tiles) &&
    0 <= n.emptyIndex < Cells4 && n.board[n.emptyIndex] == 0 &&
    0 <= n.cost < Wildcard && Value(visited, n.board, tiles) <= n.cost
  }

  ghost predicate QueueOK(visited: seq<Byte>, q: seq<PNode>, tiles: seq<int>)
  {
    forall k :: 0 <= k < |q| ==> NodeOK(visited, q[k], tiles)
  }

  ghost function Entries(q: seq<PNode>): set<(seq<int>, int)>
  {
    set k | 0 <= k < |q| :: (q[k].board, q[k].cost)
  }

  /** Every reached board is relaxed or waits in the queue with its
      recorded cost. */
  ghost predicate ClosureOK(visited: seq<Byte>, q: seq<PNode>, tiles: seq<int>)
  {
    forall b :: Known(visited, b, tiles) ==>
      Relaxed(visited, b, tiles) || (b, Value(visited, b, tiles)) in Entries(q)
  }

  /** Every heuristic entry is at most the recorded cost of each board with
      that placement of the pattern tiles. */
  ghost predicate HeurOK(visited: seq<Byte>, heur: seq<Byte>, p: TilePattern)
  {
    |visited| == VisitedStates && p.arrayOffset + Pow(BoardCells, |p.tiles|) <= |heur| &&
    forall b :: PatternBoard(b, p.tiles) ==> HValue(heur, b, p) <= Value(visited, b, p.tiles)
  }

  /** Entries only ever go down. */
  ghost predicate Below(t1: seq<Byte>, t0: seq<Byte>)
  {
    |t1| == |t0| && forall r :: 0 <= r < |t0| ==> t1[r] <= t0[r]
  }

  /** The heuristic table changes only inside the pattern's slice. */
  ghost predicate SameOutside(h1: seq<Byte>, h0: seq<Byte>, p: TilePattern)
  {
    |h1| == |h0| &&
    forall r :: 0 <= r < |h0| && !(p.arrayOffset <= r < p.arrayOffset + Pow(BoardCells, |p.tiles|)) ==> h1[r] == h0[r]
  }

  ghost predicate PatternOK(p: TilePattern)
  {
    TilesOK(p.tiles) && p.arrayOffset + Pow(BoardCells, |p.tiles|) <= TotalStates
  }

  /** The sum of all entries: it only goes down as costs improve. */
  ghost function Sum(t: seq<Byte>): nat
  {
    if t == [] then 0 else t[0] as nat + Sum(t[1..])
  }

  lemma {:induction false} SumAfterWrite(t: seq<Byte>, r: int, x: Byte)
    requires 0 <= r < |t|
    ensures Sum(t[r := x]) == Sum(t) - t[r] as int + x as int
  {
    if r == 0 {
      assert t[r := x][1..] == t[1..];
    } else {
      assert t[r := x][1..] == t[1..][r - 1 := x];
      SumAfterWrite(t[1..], r - 1, x);
    }
  }

  /** The directions 0 .. d - 1 of node `n` are relaxed. */
  ghost predicate DirectionsDone(visited: seq<Byte>, n: PNode, tiles: seq<int>, d: int)
  {
    NodeOK(visited, n, tiles) && 0 <= d <= 4 &&
    forall k :: 0 <= k < d ==> StepRelaxed(visited, n.board, tiles, n.emptyIndex, n.cost, k)
  }

  /** Every board reached from the root by any moves has a heuristic entry at
      most the pattern cost of those moves. */
  ghost predicate LowerBounds(heur: seq<Byte>, p: TilePattern)
    requires PatternOK(p) && |heur| == TotalStates
  {
    forall dirs :: PatternBoard(Play(Side4, RootBoard(p.tiles), dirs), p.tiles) ==>
      HValue(heur, Play(Side4, RootBoard(p.tiles), dirs), p) <= PathCost(RootBoard(p.tiles), dirs)
  }

  // ---------------------------------------------------------------------
  // One relaxation.

  /** A move out of the empty cell of a search board. */
  lemma MoveTarget4(b: seq<int>, tiles: seq<int>, e: int, d: int)
    requires PatternBoard(b, tiles) && 0 <= e < Cells4 && b[e] == 0 && 0 <= d < 4
    requires Neighbour(Side4, e, d) != -1
    ensures var m := Neighbour(Side4, e, d);
      0 <= m < Cells4 && m != e && PatternBoard(MakeMove(b, e, m), tiles) && MakeMove(b, e, m)[m] == 0
  {
    var m := Neighbour(Side4, e, d);
    NeighbourSymmetric(Side4, e, d);
    MoveKeepsPatternBoard(b, tiles, e, m);
  }

  /** Search boards with the same `visited` index are the same board. */
  lemma VIndexSeparates(b1: seq<int>, b2: seq<int>, tiles: seq<int>)
    requires PatternBoard(b1, tiles) && PatternBoard(b2, tiles)
    ensures VIndex(b1, tiles) == VIndex(b2, tiles) ==> b1 == b2
  {
    if VIndex(b1, tiles) == VIndex(b2, tiles) {
      VIndexInjective(b1, b2, tiles);
    }
  }

  /** Writing a board's `visited` entry changes the recorded cost of that
      board alone. */
  lemma ValueAfterWrite(v0: seq<Byte>, v1: seq<Byte>, r: int, x: Byte, child: seq<int>, b: seq<int>, tiles: seq<int>)
    requires |v0| == VisitedStates && PatternBoard(child, tiles) && PatternBoard(b, tiles)
    requires r == VIndex(child, tiles) && 0 <= r < |v0| && v1 == v0[r := x]
    ensures Value(v1, b, tiles) == if b == child then x as int else Value(v0, b, tiles)
  {
    IndicesFit(b, tiles);
    VIndexSeparates(b, child, tiles);
  }

  lemma ValueBelow(v0: seq<Byte>, v1: seq<Byte>, b: seq<int>, tiles: seq<int>)
    requires |v0| == VisitedStates && Below(v1, v0) && PatternBoard(b, tiles)
    ensures Value(v1, b, tiles) <= Value(v0, b, tiles)
  {
    IndicesFit(b, tiles);
  }

  /** A relaxed move stays relaxed as entries go down. */
  lemma StepRelaxedBelow(v0: seq<Byte>, v1: seq<Byte>, b: seq<int>, tiles: seq<int>, e: int, c: int, d: int)
    requires |v0| == VisitedStates && Below(v1, v0) && PatternBoard(b, tiles)
    requires 0 <= e < Cells4 && b[e] == 0 && 0 <= d < 4
    requires StepRelaxed(v0, b, tiles, e, c, d)
    ensures StepRelaxed(v1, b, tiles, e, c, d)
  {
    var m := Neighbour(Side4, e, d);
    if m != -1 {
      ValueBelow(v0, v1, MakeMove(b, e, m), tiles);
    }
  }

  /** A relaxed board whose own entry did not change stays relaxed. */
  lemma RelaxedBelow(v0: seq<Byte>, v1: seq<Byte>, b: seq<int>, tiles: seq<int>)
    requires Below(v1, v0) && Known(v0, b, tiles) && Relaxed(v0, b, tiles)
    requires Value(v1, b, tiles) == Value(v0, b, tiles)
    ensures Known(v1, b, tiles) && Relaxed(v1, b, tiles)
  {
    if 0 in b {
      var e := IndexOf(b, 0);
      forall d | 0 <= d < 4 ensures StepRelaxed(v1, b, tiles, e, Value(v1, b, tiles), d) {
        StepRelaxedBelow(v0, v1, b, tiles, e, Value(v0, b, tiles), d);
      }
    }
  }

  lemma QueueBelow(v0: seq<Byte>, v1: seq<Byte>, q: seq<PNode>, tiles: seq<int>)
    requires Below(v1, v0) && QueueOK(v0, q, tiles)
    ensures QueueOK(v1, q, tiles)
  {
    forall k | 0 <= k < |q| ensures NodeOK(v1, q[k], tiles) {
      ValueBelow(v0, v1, q[k].board, tiles);
    }
  }

  lemma DirectionsBelow(v0: seq<Byte>, v1: seq<Byte>, n: PNode, tiles: seq<int>, d: int)
    requires Below(v1, v0) && DirectionsDone(v0, n, tiles, d)
    ensures DirectionsDone(v1, n, tiles, d)
  {
    ValueBelow(v0, v1, n.board, tiles);
    forall k | 0 <= k < d ensures StepRelaxed(v1, n.board, tiles, n.emptyIndex, n.cost, k) {
      StepRelaxedBelow(v0, v1, n.board, tiles, n.emptyIndex, n.cost, k);
    }
  }

  lemma EntriesAppend(q: seq<PNode>, n: PNode)
    ensures Entries(q + [n]) == Entries(q) + {(n.board, n.cost)}
  {
    assert (q + [n])[|q|] == n;
    forall k | 0 <= k < |q| ensures (q + [n])[k] == q[k] { }
  }

  lemma EntriesCons(n: PNode, q: seq<PNode>)
    ensures Entries([n] + q) == {(n.board, n.cost)} + Entries(q)
  {
    assert ([n] + q)[0] == n;
    forall k | 0 <= k < |q| ensures ([n] + q)[k + 1] == q[k] { }
    forall x | x in Entries([n] + q) ensures x in {(n.board, n.cost)} + Entries(q) {
      var k :| 0 <= k < |[n] + q| && x == (([n] + q)[k].board, ([n] + q)[k].cost);
      if k > 0 {
        assert ([n] + q)[k] == q[k - 1];
      }
    }
  }

  /** A strictly better cost written for a board and the board queued with
      it keep every reached board relaxed or queued. */
  lemma ClosureAfterWrite(v0: seq<Byte>, v1: seq<Byte>, r: int, x: Byte, q0: seq<PNode>, child: seq<int>, m: int, tiles: seq<int>)
    requires |v0| == VisitedStates && PatternBoard(child, tiles)
    requires r == VIndex(child, tiles) && 0 <= r < |v0| && x < v0[r] && v1 == v0[r := x]
    requires ClosureOK(v0, q0, tiles)
    ensures Below(v1, v0)
    ensures ClosureOK(v1, q0 + [PNode(child, m, x as int)], tiles)
  {
    var q1 := q0 + [PNode(child, m, x as int)];
    EntriesAppend(q0, PNode(child, m, x as int));
    forall b | Known(v1, b, tiles) ensures Relaxed(v1, b, tiles) || (b, Value(v1, b, tiles)) in Entries(q1) {
      ValueAfterWrite(v0, v1, r, x, child, b, tiles);
      if b != child && Relaxed(v0, b, tiles) {
        RelaxedBelow(v0, v1, b, tiles);
      }
    }
  }

  /** The heuristic entry of one board after the step. */
  lemma HeurAfterStepAt(v0: seq<Byte>, v1: seq<Byte>, h0: seq<Byte>, h1: seq<Byte>, child: seq<int>,
                        r: int, s: int, x: int, written: bool, p: TilePattern, b: seq<int>)
    requires PatternOK(p) && |v0| == VisitedStates && |h0| == TotalStates
    requires PatternBoard(child, p.tiles) && PatternBoard(b, p.tiles)
    requires HValue(h0, b, p) <= Value(v0, b, p.tiles)
    requires r == VIndex(child, p.tiles) && 0 <= r < VisitedStates
    requires 0 <= x <= 255 && (if written then v1 == v0[r := x as Byte] else v1 == v0) && v1[r] as int == x
    requires s == p.arrayOffset + PIndex(child, p.tiles) && 0 <= s < |h0|
    requires h1 == if h0[s] as int > x then h0[s := x as Byte] else h0
    ensures HValue(h1, b, p) <= Value(v1, b, p.tiles)
  {
    IndicesFit(b, p.tiles);
    var i, j := VIndex(b, p.tiles), p.arrayOffset + PIndex(b, p.tiles);
    assert Value(v1, b, p.tiles) == v1[i] as int && HValue(h1, b, p) == h1[j] as int;
    VIndexSeparates(b, child, p.tiles);
    if i != r {
      assert v1[i] == v0[i];
      if h0[s] as int > x {
        assert h1[j] <= h0[j] by {
          if j != s {
            assert h1[j] == h0[j];
          }
        }
      }
    } else {
      assert j == s;
    }
  }

  /** The heuristic entry of the moved-to board, lowered to its new cost
      when that is smaller, keeps every heuristic entry at most every
      recorded cost of its placement. */
  lemma HeurAfterStep(v0: seq<Byte>, v1: seq<Byte>, h0: seq<Byte>, h1: seq<Byte>, child: seq<int>,
                      r: int, s: int, x: int, written: bool, p: TilePattern)
    requires PatternOK(p) && |h0| == TotalStates && HeurOK(v0, h0, p) && PatternBoard(child, p.tiles)
    requires r == VIndex(child, p.tiles) && 0 <= r < VisitedStates
    requires 0 <= x <= 255 && (if written then v1 == v0[r := x as Byte] else v1 == v0) && v1[r] as int == x
    requires s == p.arrayOffset + PIndex(child, p.tiles) && 0 <= s < |h0|
    requires h1 == if h0[s] as int > x then h0[s := x as Byte] else h0
    ensures HeurOK(v1, h1, p) && Below(h1, h0) && SameOutside(h1, h0, p)
  {
    IndicesFit(child, p.tiles);
    forall b | PatternBoard(b, p.tiles) ensures HValue(h1, b, p) <= Value(v1, b, p.tiles) {
      assert HValue(h0, b, p) <= Value(v0, b, p.tiles);
      HeurAfterStepAt(v0, v1, h0, h1, child, r, s, x, written, p, b);
    }
  }

  /** The move in direction `d` of `n` is relaxed once its target's entry
      is at most the node's cost plus the move's. */
  lemma DirectionRelaxed(v: seq<Byte>, n: PNode, d: int, tiles: seq<int>, m: int, child: seq<int>, r: int)
    requires DirectionsDone(v, n, tiles, d) && d < 4
    requires m == Neighbour(Side4, n.emptyIndex, d) && 0 <= m < Cells4 && m != n.emptyIndex
    requires child == MakeMove(n.board, n.emptyIndex, m) && PatternBoard(child, tiles)
    requires r == VIndex(child, tiles) && 0 <= r < VisitedStates
    requires v[r] as int <= n.cost + Weight(n.board[m])
    ensures DirectionsDone(v, n, tiles, d + 1)
  {
    assert StepRelaxed(v, n.board, tiles, n.emptyIndex, n.cost, d);
  }

  /** The `visited` side of one direction: a strictly better cost is
      written and the board queued, or nothing changes. */
  lemma VisitedStep4(v0: seq<Byte>, v1: seq<Byte>, q0: seq<PNode>, q1: seq<PNode>,
                     n: PNode, d: int, tiles: seq<int>, m: int, child: seq<int>, r: int, w: int)
    requires QueueOK(v0, q0, tiles) && ClosureOK(v0, [n] + q0, tiles)
    requires DirectionsDone(v0, n, tiles, d) && d < 4
    requires m == Neighbour(Side4, n.emptyIndex, d) && 0 <= m < Cells4 && m != n.emptyIndex
    requires child == MakeMove(n.board, n.emptyIndex, m) && PatternBoard(child, tiles)
    requires r == VIndex(child, tiles) && 0 <= r < VisitedStates
    requires w == n.cost + Weight(n.board[m]) && w < v0[r] as int
    requires v1 == v0[r := w as Byte] && q1 == q0 + [PNode(child, m, w)]
    ensures QueueOK(v1, q1, tiles) && ClosureOK(v1, [n] + q1, tiles)
    ensures DirectionsDone(v1, n, tiles, d + 1)
    ensures Below(v1, v0) && Sum(v1) + |q1| <= Sum(v0) + |q0| && Sum(v1) <= Sum(v0)
  {
    var node := PNode(child, m, w);
    assert Below(v1, v0) && ClosureOK(v1, [n] + q1, tiles) by {
      ClosureAfterWrite(v0, v1, r, w as Byte, [n] + q0, child, m, tiles);
      assert [n] + q1 == ([n] + q0) + [node];
    }
    assert QueueOK(v1, q1, tiles) by {
      QueueBelow(v0, v1, q0, tiles);
      assert NodeOK(v1, node, tiles) by {
        IndicesFit(child, tiles);
      }
    }
    SumAfterWrite(v0, r, w as Byte);
    DirectionsBelow(v0, v1, n, tiles, d);
    DirectionRelaxed(v1, n, d, tiles, m, child, r);
  }

  /** Once all four directions of `n` are relaxed, `n` can leave the queue:
      its board, when recorded at the node's cost, is relaxed. */
  lemma NodeExpanded(v: seq<Byte>, n: PNode, q: seq<PNode>, tiles: seq<int>)
    requires ClosureOK(v, [n] + q, tiles) && DirectionsDone(v, n, tiles, 4)
    ensures ClosureOK(v, q, tiles)
  {
    EntriesCons(n, q);
    EmptyCell(n.board, tiles, n.emptyIndex);
    forall b | Known(v, b, tiles) ensures Relaxed(v, b, tiles) || (b, Value(v, b, tiles)) in Entries(q) {
      if b == n.board && Value(v, b, tiles) == n.cost {
        forall d | 0 <= d < 4 ensures StepRelaxed(v, b, tiles, IndexOf(b, 0), Value(v, b, tiles), d) {
          assert StepRelaxed(v, n.board, tiles, n.emptyIndex, n.cost, d);
        }
      }
    }
  }

  /** A board other than the root still holds 255 right after the root is
      recorded. */
  lemma RootValue(v: seq<Byte>, p: TilePattern, root: seq<int>, r: int, b: seq<int>)
    requires PatternOK(p) && PatternBoard(root, p.tiles) && PatternBoard(b, p.tiles)
    requires r == VIndex(root, p.tiles) && |v| == VisitedStates && 0 <= r < |v| && v[r] == 0
    requires forall i :: 0 <= i < |v| && i != r ==> v[i] == Wildcard as Byte
    ensures Value(v, b, p.tiles) == if b == root then 0 else Wildcard
  {
    IndicesFit(b, p.tiles);
    VIndexSeparates(b, root, p.tiles);
    if b != root {
      assert v[VIndex(b, p.tiles)] == Wildcard as Byte;
    }
  }

  /** Right after the root is recorded, the heuristic entry of every board is
      at most its cost. */
  lemma RootHeuristic(v: seq<Byte>, h: seq<Byte>, p: TilePattern, root: seq<int>, s: int, b: seq<int>)
    requires p.arrayOffset + Pow(BoardCells, |p.tiles|) <= |h| && PatternBoard(b, p.tiles)
    requires |v| == VisitedStates && Value(v, b, p.tiles) == if b == root then 0 else Wildcard
    requires s == p.arrayOffset + PIndex(root, p.tiles) && 0 <= s < |h| && h[s] == 0
    ensures HValue(h, b, p) <= Value(v, b, p.tiles)
  {
    IndicesFit(b, p.tiles);
    if b == root {
      assert HValue(h, b, p) == h[s] as int;
    }
  }


  /** The state right after the root is recorded: `visited` holds 255
      everywhere but at the root, which holds 0, and the queue holds the
      root alone. */
  lemma RootInvariants(v: seq<Byte>, h: seq<Byte>, p: TilePattern, root: PNode, r: int, s: int)
    requires PatternOK(p) && |h| == TotalStates
    requires root == PNode(RootBoard(p.tiles), Cells4 - 1, 0) && PatternBoard(root.board, p.tiles)
    requires r == VIndex(root.board, p.tiles) && |v| == VisitedStates && 0 <= r < |v| && v[r] == 0
    requires forall i :: 0 <= i < |v| && i != r ==> v[i] == Wildcard as Byte
    requires s == p.arrayOffset + PIndex(root.board, p.tiles) && 0 <= s < |h| && h[s] == 0
    ensures QueueOK(v, [root], p.tiles) && ClosureOK(v, [root], p.tiles) && HeurOK(v, h, p)
  {
    assert QueueOK(v, [root], p.tiles) by {
      RootValue(v, p, root.board, r, root.board);
      assert NodeOK(v, root, p.tiles);
    }
    assert ClosureOK(v, [root], p.tiles) by {
      EntriesCons(root, []);
      forall b | Known(v, b, p.tiles) ensures (b, Value(v, b, p.tiles)) in Entries([root]) {
        RootValue(v, p, root.board, r, b);
      }
    }
    forall b | PatternBoard(b, p.tiles) ensures HValue(h, b, p) <= Value(v, b, p.tiles) {
      RootValue(v, p, root.board, r, b);
      RootHeuristic(v, h, p, root.board, s, b);
    }
  }

  /** When nothing is left in the queue, every board reachable from a search
      board is recorded at most the pattern cost of the moves further. */
  lemma {:induction false} PlayBound(v: seq<Byte>, b: seq<int>, dirs: seq<int>, tiles: seq<int>)
    requires |v| == VisitedStates && PatternBoard(b, tiles) && 0 in b && ClosureOK(v, [], tiles)
    ensures PatternBoard(Play(Side4, b, dirs), tiles)
    ensures Value(v, Play(Side4, b, dirs), tiles) <= Value(v, b, tiles) + PathCost(b, dirs)
    decreases |dirs|
  {
    if dirs != [] {
      var e, d := IndexOf(b, 0), dirs[0];
      if 0 <= d < 4 && Neighbour(Side4, e, d) != -1 {
        var m := Neighbour(Side4, e, d);
        StepBound(v, b, tiles, e, d);
        PlayBound(v, MakeMove(b, e, m), dirs[1..], tiles);
      } else {
        PlayBound(v, b, dirs[1..], tiles);
      }
    }
  }

  /** When nothing is left in the queue, one move from a search board leads
      to a board recorded at most the moved tile's weight further. */
  lemma StepBound(v: seq<Byte>, b: seq<int>, tiles: seq<int>, e: int, d: int)
    requires |v| == VisitedStates && PatternBoard(b, tiles) && 0 in b && ClosureOK(v, [], tiles)
    requires e == IndexOf(b, 0) && 0 <= d < 4 && Neighbour(Side4, e, d) != -1
    ensures var m := Neighbour(Side4, e, d);
      0 <= m < Cells4 && m != e && PatternBoard(MakeMove(b, e, m), tiles) && MakeMove(b, e, m)[m] == 0 &&
      Value(v, MakeMove(b, e, m), tiles) <= Value(v, b, tiles) + Weight(b[m])
  {
    MoveTarget4(b, tiles, e, d);
    var c := MakeMove(b, e, Neighbour(Side4, e, d));
    IndicesFit(b, tiles);
    IndicesFit(c, tiles);
    if Value(v, b, tiles) != Wildcard {
      assert Known(v, b, tiles);
      assert StepRelaxed(v, b, tiles, e, Value(v, b, tiles), d);
    }
  }

  /** At the end of the search the heuristic slice bounds every reachable
      placement by the cost of reaching it. */
  lemma BoundsAtEnd(v: seq<Byte>, h: seq<Byte>, p: TilePattern)
    requires PatternOK(p) && |h| == TotalStates && |v| == VisitedStates
    requires ClosureOK(v, [], p.tiles) && HeurOK(v, h, p)
    requires PatternBoard(RootBoard(p.tiles), p.tiles) && Value(v, RootBoard(p.tiles), p.tiles) == 0
    ensures LowerBounds(h, p)
  {
    var root := RootBoard(p.tiles);
    forall dirs | PatternBoard(Play(Side4, root, dirs), p.tiles)
      ensures HValue(h, Play(Side4, root, dirs), p) <= PathCost(root, dirs)
    {
      PlayBound(v, root, dirs, p.tiles);
    }
  }

  /** Lowering entries keeps the bounds. */
  lemma BoundsBelow(h0: seq<Byte>, h1: seq<Byte>, p: TilePattern)
    requires PatternOK(p) && |h0| == TotalStates && Below(h1, h0) && LowerBounds(h0, p)
    ensures LowerBounds(h1, p)
  {
    var root := RootBoard(p.tiles);
    forall dirs | PatternBoard(Play(Side4, root, dirs), p.tiles)
      ensures HValue(h1, Play(Side4, root, dirs), p) <= PathCost(root, dirs)
    {
      var b := Play(Side4, root, dirs);
      IndicesFit(b, p.tiles);
      var s := p.arrayOffset + PIndex(b, p.tiles);
      assert h1[s] <= h0[s];
      assert HValue(h0, b, p) <= PathCost(root, dirs);
    }
  }

  /** The solved placement of a pattern costs nothing. */
  lemma RootCostsNothing(h: seq<Byte>, p: TilePattern)
    requires PatternOK(p) && |h| == TotalStates && LowerBounds(h, p)
    ensures PatternBoard(RootBoard(p.tiles), p.tiles) && HValue(h, RootBoard(p.tiles), p) == 0
  {
    RootIsPatternBoard(p.tiles);
    assert Play(Side4, RootBoard(p.tiles), []) == RootBoard(p.tiles);
    IndicesFit(RootBoard(p.tiles), p.tiles);
  }

  // ---------------------------------------------------------------------
  // The search.

  /** Records a strictly better cost for a board and queues its node. */
  method Record4(visited: array<Byte>, q: Queue<PNode>, index: int, node: PNode)
    requires 0 <= index < visited.Length && 0 <= node.cost < Wildcard
    modifies visited, q
    ensures visited[..] == old(visited[..])[index := node.cost as Byte]
    ensures q.contents == old(q.contents) + [node]
  {
    visited[index] := node.cost as Byte;
    q.Enqueue(node);
  }

  /** Lowers the heuristic entry of the moved-to board to its cost `x` when
      that is smaller: the table keeps the least cost seen per placement. */
  method LowerHeuristic(heur: array<Byte>, i: int, x: int, p: TilePattern,
                        ghost v0: seq<Byte>, ghost v1: seq<Byte>, ghost child: seq<int>, ghost r: int, ghost written: bool)
    requires PatternOK(p) && heur.Length == TotalStates && HeurOK(v0, heur[..], p) && PatternBoard(child, p.tiles)
    requires r == VIndex(child, p.tiles) && 0 <= r < VisitedStates
    requires 0 <= x <= 255 && (if written then v1 == v0[r := x as Byte] else v1 == v0) && v1[r] as int == x
    requires i == p.arrayOffset + PIndex(child, p.tiles) && 0 <= i < heur.Length
    modifies heur
    ensures HeurOK(v1, heur[..], p) && Below(heur[..], old(heur[..])) && SameOutside(heur[..], old(heur[..]), p)
  {
    ghost var h0 := heur[..];
    if heur[i] as int > x {
      heur[i] := x as Byte;
    }
    HeurAfterStep(v0, v1, h0, heur[..], child, r, i, x, written, p);
  }

  /** The `visited` side of one direction of the loop of
      `bfs_tile_pattern`, on the board with the move in direction `d` made:
      add the moved tile's cost; keep the smaller of that and the recorded
      cost, recording the board and queueing it when the new cost is
      smaller. Returns the cost the board ends up with. */
  method VisitDirection(visited: array<Byte>, q: Queue<PNode>, board: array<int>,
                        n: PNode, d: int, p: TilePattern, labels: seq<int>, m: int)
      returns (x: int, ghost r: int, ghost written: bool)
    requires labels == Labels(p.tiles) && PatternOK(p) && visited.Length == VisitedStates && 0 <= d < 4
    requires QueueOK(visited[..], q.contents, p.tiles) && ClosureOK(visited[..], [n] + q.contents, p.tiles)
    requires DirectionsDone(visited[..], n, p.tiles, d)
    requires m == Neighbour(Side4, n.emptyIndex, d) && 0 <= m < Cells4 && m != n.emptyIndex
    requires board.Length == Cells4 && board[..] == MakeMove(n.board, n.emptyIndex, m)
    requires PatternBoard(board[..], p.tiles)
    modifies visited, q
    ensures QueueOK(visited[..], q.contents, p.tiles) && ClosureOK(visited[..], [n] + q.contents, p.tiles)
    ensures DirectionsDone(visited[..], n, p.tiles, d + 1) && Below(visited[..], old(visited[..]))
    ensures Sum(visited[..]) + |q.contents| <= Sum(old(visited[..])) + |old(q.contents)|
    ensures Sum(visited[..]) <= Sum(old(visited[..]))
    ensures r == VIndex(old(board[..]), p.tiles) && 0 <= r < VisitedStates
    ensures 0 <= x <= 255 && visited[r] as int == x
    ensures if written then visited[..] == old(visited[..])[r := x as Byte] else visited[..] == old(visited[..])
  {
    ghost var v0, child := visited[..], board[..];
    IndicesFit(child, p.tiles);
    LabelsOnce(child, p.tiles);
    x := n.cost;
    if n.board[m] != Wildcard {
      x := x + 1;
    }
    var index := ArrIndexAll(board, labels);
    r, written := index, false;
    if visited[index] as int <= x {
      x := visited[index] as int;
      DirectionRelaxed(v0, n, d, p.tiles, m, child, r);
    } else {
      ghost var q0 := q.contents;
      Record4(visited, q, index, PNode(board[..], m, x));
      VisitedStep4(v0, visited[..], q0, q.contents, n, d, p.tiles, m, child, r, x);
      written := true;
    }
  }

  /** One direction of the loop of `bfs_tile_pattern`: the `visited` side,
      then the heuristic entry of the moved-to board lowered to its cost. */
  method RelaxDirection(visited: array<Byte>, heur: array<Byte>, q: Queue<PNode>, board: array<int>,
                        n: PNode, d: int, p: TilePattern, labels: seq<int>)
    requires visited != heur && labels == Labels(p.tiles) && PatternOK(p)
    requires visited.Length == VisitedStates && heur.Length == TotalStates
    requires board.Length == Cells4 && board[..] == n.board && 0 <= d < 4
    requires QueueOK(visited[..], q.contents, p.tiles) && ClosureOK(visited[..], [n] + q.contents, p.tiles)
    requires HeurOK(visited[..], heur[..], p) && DirectionsDone(visited[..], n, p.tiles, d)
    modifies visited, heur, q, board
    ensures board[..] == n.board
    ensures QueueOK(visited[..], q.contents, p.tiles) && ClosureOK(visited[..], [n] + q.contents, p.tiles)
    ensures HeurOK(visited[..], heur[..], p) && DirectionsDone(visited[..], n, p.tiles, d + 1)
    ensures Below(visited[..], old(visited[..])) && Below(heur[..], old(heur[..]))
    ensures SameOutside(heur[..], old(heur[..]), p)
    ensures Sum(visited[..]) + |q.contents| <= Sum(old(visited[..])) + |old(q.contents)|
    ensures Sum(visited[..]) <= Sum(old(visited[..]))
  {
    LookupValidMove4(n.emptyIndex, d);
    var m := ValidMoves4[n.emptyIndex][d];
    if m == -1 {
      return;
    }
    MoveTarget4(n.board, p.tiles, n.emptyIndex, d);
    ghost var v0 := visited[..];
    var tile := board[m];
    MakeMoveOn(board, n.emptyIndex, m);
    ghost var child := board[..];
    var x, r, written := VisitDirection(visited, q, board, n, d, p, labels, m);
    var index := ArrIndexAll(board, p.tiles);
    IndicesFit(child, p.tiles);
    LowerHeuristic(heur, index + p.arrayOffset, x, p, v0, visited[..], child, r, written);
    UndoMoveOn(board, n.emptyIndex, m, tile);
    UndoRestores(n.board, n.emptyIndex, m);
  }

  /** The body of the search loop for a dequeued node: the four directions
      in turn, on the node's board. */
  method ExpandPatternNode(visited: array<Byte>, heur: array<Byte>, q: Queue<PNode>, n: PNode,
                           p: TilePattern, labels: seq<int>)
    requires visited != heur && labels == Labels(p.tiles) && PatternOK(p)
    requires visited.Length == VisitedStates && heur.Length == TotalStates
    requires QueueOK(visited[..], q.contents, p.tiles) && ClosureOK(visited[..], [n] + q.contents, p.tiles)
    requires HeurOK(visited[..], heur[..], p) && NodeOK(visited[..], n, p.tiles)
    modifies visited, heur, q
    ensures QueueOK(visited[..], q.contents, p.tiles) && ClosureOK(visited[..], q.contents, p.tiles)
    ensures HeurOK(visited[..], heur[..], p)
    ensures Below(visited[..], old(visited[..])) && Below(heur[..], old(heur[..]))
    ensures SameOutside(heur[..], old(heur[..]), p)
    ensures Sum(visited[..]) + |q.contents| <= Sum(old(visited[..])) + |old(q.contents)|
    ensures Sum(visited[..]) <= Sum(old(visited[..]))
  {
    var board := new int[Cells4](i requires 0 <= i < Cells4 => n.board[i]);
    assert board[..] == n.board;
    for d := 0 to 4
      invariant board[..] == n.board
      invariant QueueOK(visited[..], q.contents, p.tiles) && ClosureOK(visited[..], [n] + q.contents, p.tiles)
      invariant HeurOK(visited[..], heur[..], p) && DirectionsDone(visited[..], n, p.tiles, d)
      invariant Below(visited[..], old(visited[..])) && Below(heur[..], old(heur[..]))
      invariant SameOutside(heur[..], old(heur[..]), p)
      invariant Sum(visited[..]) + |q.contents| <= Sum(old(visited[..])) + |old(q.contents)|
      invariant Sum(visited[..]) <= Sum(old(visited[..]))
    {
      RelaxDirection(visited, heur, q, board, n, d, p, labels);
    }
    NodeExpanded(visited[..], n, q.contents, p.tiles);
  }

  /** One turn of the search loop: dequeue the front node and expand it. */
  method PatternSearchStep(visited: array<Byte>, heur: array<Byte>, q: Queue<PNode>, p: TilePattern, labels: seq<int>)
    requires visited != heur && labels == Labels(p.tiles) && PatternOK(p)
    requires visited.Length == VisitedStates && heur.Length == TotalStates && q.contents != []
    requires QueueOK(visited[..], q.contents, p.tiles) && ClosureOK(visited[..], q.contents, p.tiles)
    requires HeurOK(visited[..], heur[..], p)
    modifies visited, heur, q
    ensures QueueOK(visited[..], q.contents, p.tiles) && ClosureOK(visited[..], q.contents, p.tiles)
    ensures HeurOK(visited[..], heur[..], p)
    ensures Below(visited[..], old(visited[..])) && Below(heur[..], old(heur[..]))
    ensures SameOutside(heur[..], old(heur[..]), p)
    ensures Sum(visited[..]) < Sum(old(visited[..])) ||
      (Sum(visited[..]) == Sum(old(visited[..])) && |q.contents| < |old(q.contents)|)
  {
    ghost var q0 := q.contents;
    var front := q.Dequeue();
    var n := front.value;
    assert q0 == [n] + q.contents;
    assert NodeOK(visited[..], n, p.tiles);
    ExpandPatternNode(visited, heur, q, n, p, labels);
  }

  /** The visited pattern: 0, then the pattern's tiles, copied one by one. */
  method VisitedLabels(tiles: seq<int>) returns (labels: seq<int>)
    ensures labels == Labels(tiles)
  {
    labels := [0];
    for i := 0 to |tiles|
      invariant labels == [0] + tiles[..i]
    {
      assert tiles[..i + 1] == tiles[..i] + [tiles[i]];
      labels := labels + [tiles[i]];
    }
    assert tiles[..|tiles|] == tiles;
  }

  /** A fresh `visited` table: 255 everywhere, then 0 for the root. */
  method NewVisited(board: array<int>, labels: seq<int>, ghost tiles: seq<int>) returns (visited: array<Byte>, r: int)
    requires board.Length == Cells4 && labels == Labels(tiles) && PatternBoard(board[..], tiles)
    ensures fresh(visited) && visited.Length == VisitedStates
    ensures r == VIndex(board[..], tiles) && 0 <= r < VisitedStates && visited[r] == 0
    ensures forall i :: 0 <= i < VisitedStates && i != r ==> visited[i] == Wildcard as Byte
  {
    IndicesFit(board[..], tiles);
    LabelsOnce(board[..], tiles);
    visited := new Byte[VisitedStates](_ => Wildcard as Byte);
    r := ArrIndexAll(board, labels);
    visited[r] := 0;
  }

  /** Setting the root's heuristic entry to 0 lowers one entry of the
      pattern's slice. */
  lemma RootWrite(h0: seq<Byte>, h1: seq<Byte>, s: int, p: TilePattern)
    requires p.arrayOffset <= s < p.arrayOffset + Pow(BoardCells, |p.tiles|) && 0 <= s < |h0|
    requires h1 == h0[s := 0]
    ensures Below(h1, h0) && SameOutside(h1, h0, p)
  {
  }

  /** The set-up of `bfs_tile_pattern`: the root node queued, its
      heuristic entry set to 0, the visited pattern built and the `visited`
      table filled with 255 but for the root, which gets 0. */
  method StartSearch(p: TilePattern, heur: array<Byte>)
      returns (visited: array<Byte>, q: Queue<PNode>, labels: seq<int>)
    requires PatternOK(p) && heur.Length == TotalStates
    modifies heur
    ensures fresh(visited) && fresh(q) && visited.Length == VisitedStates && labels == Labels(p.tiles)
    ensures QueueOK(visited[..], q.contents, p.tiles) && ClosureOK(visited[..], q.contents, p.tiles)
    ensures HeurOK(visited[..], heur[..], p)
    ensures Below(heur[..], old(heur[..])) && SameOutside(heur[..], old(heur[..]), p)
    ensures PatternBoard(RootBoard(p.tiles), p.tiles) && Value(visited[..], RootBoard(p.tiles), p.tiles) == 0
  {
    var board := BuildRoot(p.tiles);
    RootIsPatternBoard(p.tiles);
    var root := PNode(board[..], Cells4 - 1, 0);
    q := new Queue<PNode>();
    q.Enqueue(root);
    IndicesFit(root.board, p.tiles);
    LabelsOnce(root.board, p.tiles);
    var index := ArrIndexAll(board, p.tiles);
    var s := index + p.arrayOffset;
    heur[s] := 0;
    RootWrite(old(heur[..]), heur[..], s, p);
    labels := VisitedLabels(p.tiles);
    var r;
    visited, r := NewVisited(board, labels, p.tiles);
    assert q.contents == [root];
    RootInvariants(visited[..], heur[..], p, root, r, s);
    RootValue(visited[..], p, root.board, r, root.board);
  }

  /** `bfs_tile_pattern`: the search from the root placement of one pattern,
      until the queue is empty. Afterwards every placement reachable from
      the root has a heuristic entry at most the pattern cost of any moves
      reaching it; entries only go down, and only inside the pattern's
      slice. */
  method BfsTilePattern(p: TilePattern, heur: array<Byte>)
    requires PatternOK(p) && heur.Length == TotalStates
    modifies heur
    ensures LowerBounds(heur[..], p)
    ensures Below(heur[..], old(heur[..])) && SameOutside(heur[..], old(heur[..]), p)
  {
    var visited, q, labels := StartSearch(p, heur);
    ghost var v0 := visited[..];
    while q.contents != []
      invariant QueueOK(visited[..], q.contents, p.tiles) && ClosureOK(visited[..], q.contents, p.tiles)
      invariant HeurOK(visited[..], heur[..], p) && Below(visited[..], v0)
      invariant Below(heur[..], old(heur[..])) && SameOutside(heur[..], old(heur[..]), p)
      decreases Sum(visited[..]), |q.contents|
    {
      PatternSearchStep(visited, heur, q, p, labels);
    }
    ValueBelow(v0, visited[..], RootBoard(p.tiles), p.tiles);
    BoundsAtEnd(visited[..], heur[..], p);
  }

  /** Every pattern of the table is a valid pattern whose slice fits. */
  lemma PatternsOK()
    ensures forall k :: 0 <= k < NumPatterns ==> PatternOK(Patterns[k])
  {
    PatternTilesDistinct();
    SlicesFitTable();
    assert TilesOK(Patterns[0].tiles);
    assert TilesOK(Patterns[1].tiles);
    assert TilesOK(Patterns[2].tiles);
  }

  /** The generator's `main`: a table of 255s, then the search for each
      pattern in turn. Every pattern's bounds hold at the end, since later
      searches only lower entries. */
  method GenerateHeuristics() returns (heur: array<Byte>)
    ensures heur.Length == TotalStates
    ensures forall k :: 0 <= k < NumPatterns ==> PatternOK(Patterns[k]) && LowerBounds(heur[..], Patterns[k])
  {
    heur := new Byte[TotalStates];
    for i := 0 to TotalStates
      invariant forall j :: 0 <= j < i ==> heur[j] == Wildcard as Byte
    {
      heur[i] := Wildcard as Byte;
    }
    PatternsOK();
    for i := 0 to NumPatterns
      invariant forall k :: 0 <= k < i ==> LowerBounds(heur[..], Patterns[k])
    {
      ghost var h0 := heur[..];
      BfsTilePattern(Patterns[i], heur);
      forall k | 0 <= k < i ensures LowerBounds(heur[..], Patterns[k]) {
        BoundsBelow(h0, heur[..], Patterns[k]);
      }
    }
  }
}
