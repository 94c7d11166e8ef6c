/** The 3x3 solution-graph generator (generate_dim3_solutions.c): a
    breadth-first search from the solved board over the moves of the empty
    cell. The first time a board is reached, the tile whose move reached it is
    written into a table indexed by the board's permutation rank; 0 means not
    yet reached and `RootTile` marks the solved board. A ghost map records the
    depth at which the search reached each board. Sliding the recorded tile
    of a reached board leads to a board reached one move earlier, so following
    the entries from any reached board arrives at the solved board after as
    many moves as its depth; neighbouring boards differ in depth by at most
    one, so no walk to the solved board is shorter; and every board that can
    be played from the solved board has an entry. */
module SolutionGraph {
  import opened Common
  import opened Geometry
  import opened Ranking
  import opened Queues

  const Dim3 := 3
  const NumTiles3 := 9
  /** `DIM3_NUM_BOARDS`: one table entry per permutation of 0 .. 8. */
  const NumBoards3 := 362880
  /** The root's entry, a label that is not a tile: "no move". */
  const RootTile := 9

  /** Tiles 1 .. 8 in order, then the empty tile 0. */
  const Solved3: seq<int> := SolvedBoard(NumTiles3)

  /** A search node: the board, the cell of its empty tile and the tile whose
      move reached it (the `next` link is the queue's business). */
  datatype Node3 = Node3(board: seq<int>, emptyIndex: int, tile: int)

  /** A 3x3 board: the labels 0 .. 8, each once, 0 being the empty cell. */
  predicate IsBoard3(b: seq<int>)
  {
    |b| == NumTiles3 && IsPermutation(b, NumTiles3)
  }

  lemma NumBoards3IsFactorial()
    ensures Factorial(NumTiles3) == NumBoards3
  {
  }

  lemma SolvedIsBoard()
    ensures IsBoard3(Solved3) && Solved3[NumTiles3 - 1] == 0
  {
    SolvedIsPermutation(NumTiles3);
  }

  /** The table entry of a board: the entry at its rank. */
  ghost function Entry(table: seq<Byte>, b: seq<int>): int
    requires IsBoard3(b)
  {
    if Rank(b) < |table| then table[Rank(b)] as int else 0
  }

  /** A board the search has reached: its entry is not 0. */
  ghost predicate Seen(table: seq<Byte>, b: seq<int>)
  {
    IsBoard3(b) && Entry(table, b) != 0
  }

  /** The board one move from `b` in direction `d` of its empty cell `e`
      has been reached, at a depth at most one more than the depth of `b`,
      or that direction leaves the board. */
  ghost predicate NextSeen(table: seq<Byte>, depth: map<seq<int>, nat>, b: seq<int>, e: int, d: int)
    requires 0 <= e < |b| && 0 <= d < 4
  {
    var m := Neighbour(Dim3, e, d);
    0 <= m < |b| ==>
      IsBoard3(MakeMove(b, e, m)) && Entry(table, MakeMove(b, e, m)) != 0 &&
      MakeMove(b, e, m) in depth && b in depth && depth[MakeMove(b, e, m)] <= depth[b] + 1
  }

  /** Every board one move from `b` has been reached, at most one move
      deeper than `b`. */
  ghost predicate Closed(table: seq<Byte>, depth: map<seq<int>, nat>, b: seq<int>)
  {
    0 in b ==> forall d :: 0 <= d < 4 ==> NextSeen(table, depth, b, IndexOf(b, 0), d)
  }

  /** What a reached board's entry records: `RootTile` exactly for the solved
      board; for any other board a tile 1 .. 8 next to its empty cell, whose
      move back leads to a reached board. */
  ghost predicate EntryOK(table: seq<Byte>, b: seq<int>)
    requires Seen(table, b)
  {
    var t := Entry(table, b);
    (t == RootTile <==> b == Solved3) &&
    (t != RootTile ==>
      1 <= t <= 8 && 0 in b && t in b &&
      Neighbour(Dim3, IndexOf(b, t), DirectionTo(IndexOf(b, t), IndexOf(b, 0))) == IndexOf(b, 0) &&
      IsBoard3(MakeMove(b, IndexOf(b, 0), IndexOf(b, t))) &&
      Entry(table, MakeMove(b, IndexOf(b, 0), IndexOf(b, t))) != 0)
  }

  /** The direction from cell `p` to the next cell `e` (above, right, below
      or left of it), when they are next to each other. */
  function DirectionTo(p: int, e: int): (d: int)
    ensures 0 <= d < 4
  {
    if e == p - Dim3 then Above else if e == p + 1 then Right else if e == p + Dim3 then Below else Left
  }

  /** A queued node: a board, the cell of its empty tile, and the tile that
      its entry records. */
  ghost predicate NodeOK(table: seq<Byte>, n: Node3)
  {
    IsBoard3(n.board) && 0 <= n.emptyIndex < NumTiles3 && n.board[n.emptyIndex] == 0 &&
    1 <= n.tile <= RootTile && Entry(table, n.board) == n.tile
  }

  ghost predicate QueueOK(table: seq<Byte>, q: seq<Node3>)
  {
    forall k :: 0 <= k < |q| ==> NodeOK(table, q[k])
  }

  ghost function Boards(q: seq<Node3>): set<seq<int>>
  {
    set k | 0 <= k < |q| :: q[k].board
  }

  /** Every reached board either waits in the queue or has all its
      neighbours reached. */
  ghost predicate ClosureOK(table: seq<Byte>, depth: map<seq<int>, nat>, q: seq<Node3>)
  {
    forall b :: Seen(table, b) ==> Closed(table, depth, b) || b in Boards(q)
  }

  /** The board a reached board's entry leads back to: its recorded tile
      slid into its empty cell. */
  ghost function Parent(table: seq<Byte>, b: seq<int>): seq<int>
    requires IsBoard3(b)
  {
    var t := Entry(table, b);
    if 0 in b && t in b then MakeMove(b, IndexOf(b, 0), IndexOf(b, t)) else b
  }

  /** `depth` holds exactly the reached boards: the solved board at depth 0,
      and every other one a move deeper than the board its entry leads back
      to. */
  ghost predicate DepthsOK(table: seq<Byte>, depth: map<seq<int>, nat>)
  {
    (forall b :: b in depth <==> Seen(table, b)) &&
    Solved3 in depth && depth[Solved3] == 0 &&
    forall b {:trigger Parent(table, b)} :: b in depth && b != Solved3 ==>
      IsBoard3(b) && Parent(table, b) in depth && depth[Parent(table, b)] + 1 == depth[b]
  }

  /** The queued boards have depths, in the order of the queue. */
  ghost predicate QueueDepths(depth: map<seq<int>, nat>, q: seq<Node3>)
  {
    (forall k :: 0 <= k < |q| ==> q[k].board in depth) &&
    forall i, j :: 0 <= i <= j < |q| ==> depth[q[i].board] <= depth[q[j].board]
  }

  /** No board is deeper than one more than `level`. */
  ghost predicate Within(depth: map<seq<int>, nat>, level: int)
  {
    forall b :: b in depth ==> depth[b] <= level + 1
  }

  /** `d1` keeps every depth of `d0`. */
  ghost predicate Extends(d0: map<seq<int>, nat>, d1: map<seq<int>, nat>)
  {
    forall b :: b in d0 ==> b in d1 && d1[b] == d0[b]
  }

  /** Every entry is 0, a tile or `RootTile`. */
  ghost predicate TableOK(table: seq<Byte>)
  {
    |table| == NumBoards3 && forall r :: 0 <= r < |table| ==> table[r] as int <= RootTile
  }

  ghost predicate GraphOK(table: seq<Byte>)
  {
    Seen(table, Solved3) && forall b :: Seen(table, b) ==> EntryOK(table, b)
  }

  /** The number of boards not reached yet. */
  ghost function Zeros(table: seq<Byte>): nat
  {
    if table == [] then 0 else (if table[0] == 0 then 1 else 0) + Zeros(table[1..])
  }

  /** Writing a tile over a 0 leaves one board fewer to reach. */
  lemma {:induction false} ZerosAfterWrite(t: seq<Byte>, r: int, x: Byte)
    requires 0 <= r < |t| && t[r] == 0 && x != 0
    ensures Zeros(t[r := x]) == Zeros(t) - 1
  {
    if r == 0 {
      assert t[r := x][1..] == t[1..];
    } else {
      assert t[r := x][1..] == t[1..][r - 1 := x];
      ZerosAfterWrite(t[1..], r - 1, x);
    }
  }

  /** The directions 0 .. k - 1 of a node have been dealt with. */
  ghost predicate DirectionsDone(table: seq<Byte>, depth: map<seq<int>, nat>, n: Node3, k: int)
    requires 0 <= n.emptyIndex < |n.board|
  {
    forall d :: 0 <= d < k && d < 4 ==> NextSeen(table, depth, n.board, n.emptyIndex, d)
  }

  /** Entries are only ever written over a 0. */
  ghost predicate Grows(t0: seq<Byte>, t1: seq<Byte>)
  {
    |t0| == |t1| && forall r :: 0 <= r < |t0| && t0[r] != 0 ==> t1[r] == t0[r]
  }

  // ---------------------------------------------------------------------
  // Facts about one move out of a node's empty cell.

  /** The facts about a node's board that the search relies on. */
  lemma NodeBoard(n: Node3, table: seq<Byte>)
    requires NodeOK(table, n)
    ensures Distinct(n.board) && 0 in n.board && IndexOf(n.board, 0) == n.emptyIndex
    ensures forall k :: 0 <= k < |n.board| ==> 0 <= n.board[k] < NumTiles3
  {
    PermutationFacts(n.board, NumTiles3);
    IndexOfDistinct(n.board, n.emptyIndex);
  }

  /** Sliding the tile at the neighbour `m` of the empty cell `e`: the tile is
      one of 1 .. 8, the result is a board whose empty cell is `m` and whose
      tile sits at `e`, next to `m`, and sliding that tile back restores the
      board. */
  lemma MoveFacts(b: seq<int>, e: int, d: int)
    requires IsBoard3(b) && 0 <= e < NumTiles3 && b[e] == 0 && 0 <= d < 4 && Neighbour(Dim3, e, d) != -1
    ensures var m := Neighbour(Dim3, e, d);
      0 <= m < NumTiles3 && m != e && 1 <= b[m] <= 8 &&
      IsBoard3(MakeMove(b, e, m)) &&
      0 in MakeMove(b, e, m) && IndexOf(MakeMove(b, e, m), 0) == m &&
      b[m] in MakeMove(b, e, m) && IndexOf(MakeMove(b, e, m), b[m]) == e &&
      Neighbour(Dim3, e, DirectionTo(e, m)) == m &&
      MakeMove(MakeMove(b, e, m), m, e) == b
  {
    var m := Neighbour(Dim3, e, d);
    MoveTarget(e, d);
    MoveTile(b, e, m);
    MoveBoard(b, e, m);
  }

  /** The neighbour in direction `d` is another cell, and `DirectionTo`
      recovers `d`. */
  lemma MoveTarget(e: int, d: int)
    requires 0 <= e < NumTiles3 && 0 <= d < 4 && Neighbour(Dim3, e, d) != -1
    ensures var m := Neighbour(Dim3, e, d);
      0 <= m < NumTiles3 && m != e && Neighbour(Dim3, e, DirectionTo(e, m)) == m
  {
    var m := Neighbour(Dim3, e, d);
    NeighbourSymmetric(Dim3, e, d);
    assert DirectionTo(e, m) == d;
  }

  /** The tile next to the empty cell is one of 1 .. 8. */
  lemma MoveTile(b: seq<int>, e: int, m: int)
    requires IsBoard3(b) && 0 <= e < NumTiles3 && 0 <= m < NumTiles3 && e != m && b[e] == 0
    ensures 1 <= b[m] <= 8
  {
    PermutationFacts(b, NumTiles3);
    DistinctIndex(b, e, m);
  }

  /** The moved board is a board, its empty cell is `m`, the tile sits at
      `e`, and moving it back restores `b`. */
  lemma MoveBoard(b: seq<int>, e: int, m: int)
    requires IsBoard3(b) && 0 <= e < NumTiles3 && 0 <= m < NumTiles3 && e != m && b[e] == 0
    ensures IsBoard3(MakeMove(b, e, m))
    ensures 0 in MakeMove(b, e, m) && IndexOf(MakeMove(b, e, m), 0) == m
    ensures b[m] in MakeMove(b, e, m) && IndexOf(MakeMove(b, e, m), b[m]) == e
    ensures MakeMove(MakeMove(b, e, m), m, e) == b
  {
    MoveIsSwap(b, e, m);
    var nb := MakeMove(b, e, m);
    assert IsBoard3(nb) by {
      assert multiset(nb) == multiset(b);
    }
    assert Distinct(nb) by {
      PermutationFacts(nb, NumTiles3);
    }
    IndexOfDistinct(nb, m);
    IndexOfDistinct(nb, e);
  }

  // ---------------------------------------------------------------------
  // Writing only over zeros keeps every recorded fact.

  lemma SeenGrows(t0: seq<Byte>, t1: seq<Byte>, b: seq<int>)
    requires Grows(t0, t1) && Seen(t0, b)
    ensures Seen(t1, b) && Entry(t1, b) == Entry(t0, b)
  {
  }

  lemma NextSeenGrows(t0: seq<Byte>, t1: seq<Byte>, d0: map<seq<int>, nat>, d1: map<seq<int>, nat>, b: seq<int>, e: int, d: int)
    requires Grows(t0, t1) && Extends(d0, d1) && 0 <= e < |b| && 0 <= d < 4 && NextSeen(t0, d0, b, e, d)
    ensures NextSeen(t1, d1, b, e, d)
  {
    var m := Neighbour(Dim3, e, d);
    if 0 <= m < |b| {
      SeenGrows(t0, t1, MakeMove(b, e, m));
    }
  }

  lemma ClosedGrows(t0: seq<Byte>, t1: seq<Byte>, d0: map<seq<int>, nat>, d1: map<seq<int>, nat>, b: seq<int>)
    requires Grows(t0, t1) && Extends(d0, d1) && Closed(t0, d0, b)
    ensures Closed(t1, d1, b)
  {
    if 0 in b {
      forall d | 0 <= d < 4 ensures NextSeen(t1, d1, b, IndexOf(b, 0), d) {
        NextSeenGrows(t0, t1, d0, d1, b, IndexOf(b, 0), d);
      }
    }
  }

  lemma EntryOKGrows(t0: seq<Byte>, t1: seq<Byte>, b: seq<int>)
    requires Grows(t0, t1) && Seen(t0, b) && EntryOK(t0, b)
    ensures Seen(t1, b) && EntryOK(t1, b)
  {
    SeenGrows(t0, t1, b);
    var t := Entry(t0, b);
    if t != RootTile {
      SeenGrows(t0, t1, MakeMove(b, IndexOf(b, 0), IndexOf(b, t)));
    }
  }

  lemma DirectionsGrow(t0: seq<Byte>, t1: seq<Byte>, d0: map<seq<int>, nat>, d1: map<seq<int>, nat>, n: Node3, k: int)
    requires Grows(t0, t1) && Extends(d0, d1) && 0 <= n.emptyIndex < |n.board| && DirectionsDone(t0, d0, n, k)
    ensures DirectionsDone(t1, d1, n, k)
  {
    forall d | 0 <= d < k && d < 4 ensures NextSeen(t1, d1, n.board, n.emptyIndex, d) {
      NextSeenGrows(t0, t1, d0, d1, n.board, n.emptyIndex, d);
    }
  }

  // ---------------------------------------------------------------------
  // Discovering a board: its entry goes from 0 to the moved tile.

  /** The discovery write, and what it leaves unchanged. */
  lemma DiscoveryWrite(t0: seq<Byte>, t1: seq<Byte>, r: int, tile: int)
    requires 0 <= r < |t0| && t0[r] == 0 && 1 <= tile <= 8 && t1 == t0[r := tile as Byte]
    ensures Grows(t0, t1)
    ensures TableOK(t0) ==> TableOK(t1)
  {
  }

  /** A reached board whose rank is not the written one keeps its entry; the
      board with the written rank is the discovered one. */
  lemma SeenAfterWrite(t0: seq<Byte>, t1: seq<Byte>, nb: seq<int>, tile: int, x: seq<int>)
    requires IsBoard3(nb) && Rank(nb) < |t0| && t0[Rank(nb)] == 0 && 1 <= tile <= 8
    requires t1 == t0[Rank(nb) := tile as Byte] && Seen(t1, x)
    ensures x == nb || (Seen(t0, x) && x != nb)
  {
    if Rank(x) == Rank(nb) {
      RankInjective(x, nb);
    }
  }

  /** The discovered board's own entry: the moved tile, next to its empty
      cell, whose move back leads to the node being expanded. */
  lemma ChildEntryOK(t0: seq<Byte>, t1: seq<Byte>, n: Node3, d: int)
    requires NodeOK(t0, n) && Seen(t0, Solved3) && 0 <= d < 4 && Neighbour(Dim3, n.emptyIndex, d) != -1
    requires var m := Neighbour(Dim3, n.emptyIndex, d);
      0 <= m < |n.board| && IsBoard3(MakeMove(n.board, n.emptyIndex, m)) &&
      Rank(MakeMove(n.board, n.emptyIndex, m)) < |t0| &&
      t0[Rank(MakeMove(n.board, n.emptyIndex, m))] == 0 && 1 <= n.board[m] <= 8 &&
      t1 == t0[Rank(MakeMove(n.board, n.emptyIndex, m)) := n.board[m] as Byte]
    ensures Seen(t1, MakeMove(n.board, n.emptyIndex, Neighbour(Dim3, n.emptyIndex, d)))
    ensures EntryOK(t1, MakeMove(n.board, n.emptyIndex, Neighbour(Dim3, n.emptyIndex, d)))
  {
    var b, e := n.board, n.emptyIndex;
    var m := Neighbour(Dim3, e, d);
    var nb := MakeMove(b, e, m);
    MoveFacts(b, e, d);
    DiscoveryWrite(t0, t1, Rank(nb), b[m]);
    SeenGrows(t0, t1, b);
    SeenGrows(t0, t1, Solved3);
    assert Entry(t1, nb) == b[m];
    assert nb != Solved3;
  }

  lemma GraphAfterDiscovery(t0: seq<Byte>, t1: seq<Byte>, n: Node3, d: int)
    requires GraphOK(t0) && NodeOK(t0, n) && 0 <= d < 4 && Neighbour(Dim3, n.emptyIndex, d) != -1
    requires var m := Neighbour(Dim3, n.emptyIndex, d);
      0 <= m < |n.board| && IsBoard3(MakeMove(n.board, n.emptyIndex, m)) &&
      Rank(MakeMove(n.board, n.emptyIndex, m)) < |t0| &&
      t0[Rank(MakeMove(n.board, n.emptyIndex, m))] == 0 && 1 <= n.board[m] <= 8 &&
      t1 == t0[Rank(MakeMove(n.board, n.emptyIndex, m)) := n.board[m] as Byte]
    ensures GraphOK(t1)
  {
    var m := Neighbour(Dim3, n.emptyIndex, d);
    var nb := MakeMove(n.board, n.emptyIndex, m);
    DiscoveryWrite(t0, t1, Rank(nb), n.board[m]);
    SeenGrows(t0, t1, Solved3);
    forall x | Seen(t1, x) ensures EntryOK(t1, x) {
      SeenAfterWrite(t0, t1, nb, n.board[m], x);
      if x == nb {
        ChildEntryOK(t0, t1, n, d);
      } else {
        EntryOKGrows(t0, t1, x);
      }
    }
  }

  /** The discovered board's entry leads back to the node being expanded. */
  lemma ChildParent(t0: seq<Byte>, t1: seq<Byte>, n: Node3, d: int)
    requires NodeOK(t0, n) && 0 <= d < 4 && Neighbour(Dim3, n.emptyIndex, d) != -1
    requires var m := Neighbour(Dim3, n.emptyIndex, d);
      0 <= m < |n.board| && IsBoard3(MakeMove(n.board, n.emptyIndex, m)) &&
      Rank(MakeMove(n.board, n.emptyIndex, m)) < |t0| && 1 <= n.board[m] <= 8 &&
      t1 == t0[Rank(MakeMove(n.board, n.emptyIndex, m)) := n.board[m] as Byte]
    ensures var nb := MakeMove(n.board, n.emptyIndex, Neighbour(Dim3, n.emptyIndex, d));
      Seen(t1, nb) && Parent(t1, nb) == n.board
  {
    var b, e := n.board, n.emptyIndex;
    var m := Neighbour(Dim3, e, d);
    var nb := MakeMove(b, e, m);
    MoveFacts(b, e, d);
    assert Entry(t1, nb) == b[m];
  }

  /** A discovery at one more than the depth of the node being expanded
      keeps the depths right: the new board's entry leads back to the node,
      and every other entry and depth is as it was. */
  lemma DepthsAfterDiscovery(t0: seq<Byte>, t1: seq<Byte>, d0: map<seq<int>, nat>, d1: map<seq<int>, nat>, n: Node3, d: int)
    requires DepthsOK(t0, d0) && NodeOK(t0, n) && 0 <= d < 4 && Neighbour(Dim3, n.emptyIndex, d) != -1
    requires var m := Neighbour(Dim3, n.emptyIndex, d);
      0 <= m < |n.board| && IsBoard3(MakeMove(n.board, n.emptyIndex, m)) &&
      Rank(MakeMove(n.board, n.emptyIndex, m)) < |t0| &&
      t0[Rank(MakeMove(n.board, n.emptyIndex, m))] == 0 && 1 <= n.board[m] <= 8 &&
      t1 == t0[Rank(MakeMove(n.board, n.emptyIndex, m)) := n.board[m] as Byte] &&
      n.board in d0 && d1 == d0[MakeMove(n.board, n.emptyIndex, m) := d0[n.board] + 1]
    ensures DepthsOK(t1, d1) && Extends(d0, d1)
  {
    var m := Neighbour(Dim3, n.emptyIndex, d);
    var nb := MakeMove(n.board, n.emptyIndex, m);
    DiscoveryWrite(t0, t1, Rank(nb), n.board[m]);
    ChildParent(t0, t1, n, d);
    assert nb !in d0 by {
      assert !Seen(t0, nb);
    }
    forall b ensures b in d1 <==> Seen(t1, b) {
      if Seen(t1, b) {
        SeenAfterWrite(t0, t1, nb, n.board[m], b);
      }
      if b in d0 {
        SeenGrows(t0, t1, b);
      }
    }
    forall b | b in d1 && b != Solved3
      ensures IsBoard3(b) && Parent(t1, b) in d1 && d1[Parent(t1, b)] + 1 == d1[b]
    {
      if b != nb {
        assert b in d0;
        SeenGrows(t0, t1, b);
        assert Parent(t1, b) == Parent(t0, b);
        assert Parent(t0, b) in d0 && Parent(t0, b) != nb;
      } else {
        assert Parent(t1, b) == n.board && n.board != nb;
      }
    }
  }

  /** A board queued one move deeper than `level` keeps the queue in order
      of depth. */
  lemma QueueDepthsAfterDiscovery(d0: map<seq<int>, nat>, d1: map<seq<int>, nat>, q: seq<Node3>, child: Node3, level: nat)
    requires QueueDepths(d0, q) && Within(d0, level) && child.board !in d0
    requires d1 == d0[child.board := level + 1]
    ensures QueueDepths(d1, q + [child]) && Within(d1, level)
  {
    var q1 := q + [child];
    forall k | 0 <= k < |q1| ensures q1[k].board in d1 {
      if k < |q| {
        assert q1[k] == q[k];
      }
    }
    forall i, j | 0 <= i <= j < |q1| ensures d1[q1[i].board] <= d1[q1[j].board] {
      if j < |q| {
        assert q1[i] == q[i] && q1[j] == q[j];
        assert d0[q[i].board] <= d0[q[j].board];
      } else if i < |q| {
        assert q1[i] == q[i];
      }
    }
  }

  lemma QueueAfterDiscovery(t0: seq<Byte>, t1: seq<Byte>, q: seq<Node3>, child: Node3)
    requires Grows(t0, t1) && QueueOK(t0, q) && NodeOK(t1, child)
    ensures QueueOK(t1, q + [child])
  {
    forall k | 0 <= k < |q| + 1 ensures NodeOK(t1, (q + [child])[k]) {
      if k < |q| {
        SeenGrows(t0, t1, q[k].board);
      }
    }
  }

  lemma ClosureAfterDiscovery(t0: seq<Byte>, t1: seq<Byte>, d0: map<seq<int>, nat>, d1: map<seq<int>, nat>, q: seq<Node3>, child: Node3)
    requires IsBoard3(child.board) && Rank(child.board) < |t0| && t0[Rank(child.board)] == 0
    requires 1 <= child.tile <= 8 && t1 == t0[Rank(child.board) := child.tile as Byte]
    requires ClosureOK(t0, d0, q) && Extends(d0, d1)
    ensures ClosureOK(t1, d1, q + [child])
  {
    DiscoveryWrite(t0, t1, Rank(child.board), child.tile);
    forall x | Seen(t1, x) ensures Closed(t1, d1, x) || x in Boards(q + [child]) {
      SeenAfterWrite(t0, t1, child.board, child.tile, x);
      assert (q + [child])[|q|] == child;
      if x != child.board {
        if x in Boards(q) {
          var k :| 0 <= k < |q| && q[k].board == x;
          assert (q + [child])[k] == q[k];
        } else {
          ClosedGrows(t0, t1, d0, d1, x);
        }
      }
    }
  }

  // ---------------------------------------------------------------------
  // One direction of the node being expanded.

  /** The move back to the node's own parent is skipped: that board has
      been reached already, one move less deep. */
  lemma ReverseMoveSeen(table: seq<Byte>, depth: map<seq<int>, nat>, n: Node3, d: int)
    requires GraphOK(table) && DepthsOK(table, depth) && NodeOK(table, n) && 0 <= d < 4
    requires Neighbour(Dim3, n.emptyIndex, d) != -1
    requires n.board[Neighbour(Dim3, n.emptyIndex, d)] == n.tile
    ensures NextSeen(table, depth, n.board, n.emptyIndex, d)
  {
    var b, e := n.board, n.emptyIndex;
    var m := Neighbour(Dim3, e, d);
    MoveFacts(b, e, d);
    NodeBoard(n, table);
    IndexOfDistinct(b, m);
    assert Seen(table, b) && EntryOK(table, b);
    assert b != Solved3 && b in depth;
    assert Parent(table, b) == MakeMove(b, e, m);
  }

  /** The board one move away was reached before; no reached board is more
      than a move deeper than the node. */
  lemma AlreadySeen(table: seq<Byte>, depth: map<seq<int>, nat>, n: Node3, d: int)
    requires DepthsOK(table, depth) && NodeOK(table, n) && 0 <= d < 4 && Neighbour(Dim3, n.emptyIndex, d) != -1
    requires n.board in depth && Within(depth, depth[n.board])
    requires var nb := MakeMove(n.board, n.emptyIndex, Neighbour(Dim3, n.emptyIndex, d));
      IsBoard3(nb) && Rank(nb) < |table| && table[Rank(nb)] != 0
    ensures NextSeen(table, depth, n.board, n.emptyIndex, d)
  {
    MoveTarget(n.emptyIndex, d);
    var nb := MakeMove(n.board, n.emptyIndex, Neighbour(Dim3, n.emptyIndex, d));
    assert Seen(table, nb);
    assert nb in depth;
    assert depth[nb] <= depth[n.board] + 1;
  }

  lemma DirectionsNext(table: seq<Byte>, depth: map<seq<int>, nat>, n: Node3, d: int)
    requires 0 <= n.emptyIndex < |n.board| && 0 <= d < 4
    requires DirectionsDone(table, depth, n, d) && NextSeen(table, depth, n.board, n.emptyIndex, d)
    ensures DirectionsDone(table, depth, n, d + 1)
  {
  }

  /** Once its four directions are dealt with, a node's board is closed. */
  lemma NodeClosed(table: seq<Byte>, depth: map<seq<int>, nat>, n: Node3)
    requires NodeOK(table, n) && DirectionsDone(table, depth, n, 4)
    ensures Closed(table, depth, n.board)
  {
    NodeBoard(n, table);
  }

  lemma ClosureDequeue(table: seq<Byte>, depth: map<seq<int>, nat>, n: Node3, q: seq<Node3>)
    requires ClosureOK(table, depth, [n] + q) && IsBoard3(n.board) && Closed(table, depth, n.board)
    ensures ClosureOK(table, depth, q)
  {
    forall x | Seen(table, x) && x != n.board && !Closed(table, depth, x) ensures x in Boards(q) {
      assert x in Boards([n] + q);
      var k :| 0 <= k < |[n] + q| && ([n] + q)[k].board == x;
      assert k >= 1 && q[k - 1].board == x;
    }
  }

  lemma QueueDequeue(table: seq<Byte>, q: seq<Node3>)
    requires QueueOK(table, q) && q != []
    ensures NodeOK(table, q[0]) && QueueOK(table, q[1..])
  {
    assert forall k :: 0 <= k < |q[1..]| ==> q[1..][k] == q[k + 1];
  }

  /** The rest of a queue in order of depth is in order; the new front is
      at least as deep as the old one. */
  lemma QueueDepthsDequeue(depth: map<seq<int>, nat>, n: Node3, q: seq<Node3>)
    requires QueueDepths(depth, [n] + q) && n.board in depth && Within(depth, depth[n.board])
    ensures QueueDepths(depth, q)
    ensures q != [] ==> q[0].board in depth && Within(depth, depth[q[0].board])
  {
    var q0 := [n] + q;
    forall k | 0 <= k < |q| ensures q[k].board in depth {
      assert q0[k + 1] == q[k];
    }
    forall i, j | 0 <= i <= j < |q| ensures depth[q[i].board] <= depth[q[j].board] {
      assert q0[i + 1] == q[i] && q0[j + 1] == q[j];
    }
    if q != [] {
      assert q0[0] == n && q0[1] == q[0];
    }
  }

  // ---------------------------------------------------------------------
  // The search.

  /** The start of the search: the solved board is the only reached board,
      with entry `RootTile` and depth 0, and it is the only queued node. */
  lemma RootInvariants(t0: seq<Byte>, t1: seq<Byte>, root: Node3, depth: map<seq<int>, nat>)
    requires |t0| == NumBoards3 && forall r :: 0 <= r < |t0| ==> t0[r] == 0
    requires root == Node3(Solved3, NumTiles3 - 1, RootTile) && depth == map[Solved3 := 0]
    requires IsBoard3(Solved3) && Rank(Solved3) < |t0| && t1 == t0[Rank(Solved3) := RootTile as Byte]
    ensures TableOK(t1) && GraphOK(t1) && DepthsOK(t1, depth) && QueueOK(t1, [root])
    ensures QueueDepths(depth, [root]) && Within(depth, 0) && ClosureOK(t1, depth, [root])
  {
    SolvedIsBoard();
    forall x | Seen(t1, x) ensures x == Solved3 {
      RankInjective(x, Solved3);
    }
    assert Solved3 in Boards([root]) by { assert [root][0].board == Solved3; }
  }

  /** The invariants of the search loop over the table, the depths and the
      queue. */
  ghost predicate SearchOK(table: seq<Byte>, depth: map<seq<int>, nat>, q: seq<Node3>)
  {
    TableOK(table) && GraphOK(table) && DepthsOK(table, depth) &&
    QueueOK(table, q) && QueueDepths(depth, q) && ClosureOK(table, depth, q) &&
    (q != [] ==> Within(depth, depth[q[0].board]))
  }

  /** The invariants while node `n`, taken off the front of the queue, is
      expanded: the same, with `n` still counted as in front. */
  ghost predicate ExpandOK(table: seq<Byte>, depth: map<seq<int>, nat>, n: Node3, q: seq<Node3>)
  {
    TableOK(table) && GraphOK(table) && DepthsOK(table, depth) && NodeOK(table, n) &&
    QueueOK(table, q) && QueueDepths(depth, [n] + q) && ClosureOK(table, depth, [n] + q) &&
    n.board in depth && Within(depth, depth[n.board])
  }

  /** The conditions of a discovery in direction `d` of node `n`: the tile
      that slides is not the one just moved, the child board has no entry,
      the child is queued and the moved tile becomes its entry. */
  ghost predicate Discovery(t0: seq<Byte>, t1: seq<Byte>, q0: seq<Node3>, q1: seq<Node3>, n: Node3, d: int, child: Node3)
    requires 0 <= d < 4 && 0 <= n.emptyIndex < |n.board|
  {
    var m := Neighbour(Dim3, n.emptyIndex, d);
    m != -1 && 0 <= m < |n.board| && n.board[m] != n.tile && 1 <= n.board[m] <= 8 &&
    child == Node3(MakeMove(n.board, n.emptyIndex, m), m, n.board[m]) &&
    IsBoard3(child.board) && Rank(child.board) < |t0| && t0[Rank(child.board)] == 0 &&
    t1 == t0[Rank(child.board) := n.board[m] as Byte] && q1 == q0 + [child]
  }

  /** What a discovery re-establishes about the table and the queue. */
  lemma DiscoveryTable(t0: seq<Byte>, t1: seq<Byte>, q0: seq<Node3>, q1: seq<Node3>, n: Node3, d: int, child: Node3)
    requires TableOK(t0) && GraphOK(t0) && NodeOK(t0, n) && QueueOK(t0, q0) && 0 <= d < 4
    requires Discovery(t0, t1, q0, q1, n, d, child)
    ensures TableOK(t1) && GraphOK(t1) && NodeOK(t1, n) && QueueOK(t1, q1) && Grows(t0, t1)
    ensures Zeros(t1) == Zeros(t0) - 1
  {
    var e, m := n.emptyIndex, Neighbour(Dim3, n.emptyIndex, d);
    var r, tile := Rank(child.board), n.board[m];
    assert NodeOK(t1, child) by {
      MoveFacts(n.board, e, d);
      DiscoveryWrite(t0, t1, r, tile);
    }
    DiscoveryWrite(t0, t1, r, tile);
    ZerosAfterWrite(t0, r, tile as Byte);
    GraphAfterDiscovery(t0, t1, n, d);
    QueueAfterDiscovery(t0, t1, q0, child);
    SeenGrows(t0, t1, n.board);
  }

  /** After a discovery the direction it came through leads to a reached
      board one move deeper. */
  lemma ChildNextSeen(t0: seq<Byte>, t1: seq<Byte>, d0: map<seq<int>, nat>, d1: map<seq<int>, nat>,
                      q0: seq<Node3>, q1: seq<Node3>, n: Node3, d: int, child: Node3)
    requires NodeOK(t0, n) && 0 <= d < 4 && n.board in d0
    requires Discovery(t0, t1, q0, q1, n, d, child) && d1 == d0[child.board := d0[n.board] + 1]
    ensures NextSeen(t1, d1, n.board, n.emptyIndex, d)
  {
    DiscoveryWrite(t0, t1, Rank(child.board), child.tile);
  }

  /** What a discovery re-establishes about the depths: the child, not
      reached before, is a move deeper than `n`. */
  lemma DiscoveryDepths(t0: seq<Byte>, t1: seq<Byte>, d0: map<seq<int>, nat>, d1: map<seq<int>, nat>,
                        q0: seq<Node3>, q1: seq<Node3>, n: Node3, d: int, child: Node3)
    requires DepthsOK(t0, d0) && NodeOK(t0, n) && 0 <= d < 4 && n.board in d0
    requires Discovery(t0, t1, q0, q1, n, d, child) && d1 == d0[child.board := d0[n.board] + 1]
    ensures DepthsOK(t1, d1) && Extends(d0, d1) && child.board !in d0
  {
    DepthsAfterDiscovery(t0, t1, d0, d1, n, d);
    assert !Seen(t0, child.board);
  }

  /** Queueing a board not reached before, a move deeper than the front
      node `n`, keeps the queue ordered by depth. */
  lemma DiscoveryQueue(d0: map<seq<int>, nat>, d1: map<seq<int>, nat>, q0: seq<Node3>, q1: seq<Node3>, n: Node3, child: Node3)
    requires QueueDepths(d0, [n] + q0) && n.board in d0 && Within(d0, d0[n.board])
    requires child.board !in d0 && q1 == q0 + [child] && d1 == d0[child.board := d0[n.board] + 1]
    ensures QueueDepths(d1, [n] + q1) && n.board in d1 && Within(d1, d1[n.board])
  {
    assert [n] + q0 + [child] == [n] + q1;
    QueueDepthsAfterDiscovery(d0, d1, [n] + q0, child, d0[n.board]);
  }

  /** A discovery keeps the closure, and the directions done so far stay
      done, now with the one just taken. */
  lemma DiscoveryClosure(t0: seq<Byte>, t1: seq<Byte>, d0: map<seq<int>, nat>, d1: map<seq<int>, nat>,
                         q0: seq<Node3>, q1: seq<Node3>, n: Node3, d: int, child: Node3)
    requires NodeOK(t0, n) && 0 <= d < 4 && n.board in d0
    requires ClosureOK(t0, d0, [n] + q0) && DirectionsDone(t0, d0, n, d)
    requires Discovery(t0, t1, q0, q1, n, d, child) && Grows(t0, t1) && Extends(d0, d1)
    requires d1 == d0[child.board := d0[n.board] + 1]
    ensures ClosureOK(t1, d1, [n] + q1) && DirectionsDone(t1, d1, n, d + 1)
  {
    assert [n] + q0 + [child] == [n] + q1;
    ClosureAfterDiscovery(t0, t1, d0, d1, [n] + q0, child);
    DirectionsGrow(t0, t1, d0, d1, n, d);
    ChildNextSeen(t0, t1, d0, d1, q0, q1, n, d, child);
    DirectionsNext(t1, d1, n, d);
  }

  /** Everything a discovery re-establishes: the new entry is the moved
      tile, the new node is queued a move deeper than the node, and the
      invariants of the search hold of the grown table, depths and queue. */
  lemma DiscoveryStep(t0: seq<Byte>, t1: seq<Byte>, d0: map<seq<int>, nat>, d1: map<seq<int>, nat>,
                      q0: seq<Node3>, q1: seq<Node3>, n: Node3, d: int, child: Node3)
    requires ExpandOK(t0, d0, n, q0) && DirectionsDone(t0, d0, n, d) && 0 <= d < 4
    requires Discovery(t0, t1, q0, q1, n, d, child) && d1 == d0[child.board := d0[n.board] + 1]
    ensures ExpandOK(t1, d1, n, q1) && DirectionsDone(t1, d1, n, d + 1)
    ensures Extends(d0, d1) && Zeros(t1) == Zeros(t0) - 1
  {
    DiscoveryTable(t0, t1, q0, q1, n, d, child);
    DiscoveryDepths(t0, t1, d0, d1, q0, q1, n, d, child);
    DiscoveryQueue(d0, d1, q0, q1, n, child);
    DiscoveryClosure(t0, t1, d0, d1, q0, q1, n, d, child);
  }

  /** One direction with a tile to move, whichever way the lookup went: a
      discovery (`DiscoveryStep`) or a board reached before, which changes
      nothing. */
  lemma DirectionStep(t0: seq<Byte>, t1: seq<Byte>, d0: map<seq<int>, nat>, d1: map<seq<int>, nat>,
                      q0: seq<Node3>, q1: seq<Node3>, n: Node3, d: int)
    requires ExpandOK(t0, d0, n, q0) && DirectionsDone(t0, d0, n, d)
    requires 0 <= d < 4 && Neighbour(Dim3, n.emptyIndex, d) != -1
    requires var m := Neighbour(Dim3, n.emptyIndex, d);
      0 <= m < |n.board| &&
      var child := Node3(MakeMove(n.board, n.emptyIndex, m), m, n.board[m]);
      n.board[m] != n.tile && 1 <= n.board[m] <= 8 &&
      IsBoard3(child.board) && Rank(child.board) < |t0| &&
      (if t0[Rank(child.board)] == 0
       then t1 == t0[Rank(child.board) := n.board[m] as Byte] && q1 == q0 + [child] &&
         d1 == d0[child.board := d0[n.board] + 1]
       else t1 == t0 && q1 == q0 && d1 == d0)
    ensures ExpandOK(t1, d1, n, q1) && DirectionsDone(t1, d1, n, d + 1) && Extends(d0, d1)
    ensures Zeros(t1) + |q1| == Zeros(t0) + |q0| && Zeros(t1) <= Zeros(t0)
  {
    var m := Neighbour(Dim3, n.emptyIndex, d);
    var child := Node3(MakeMove(n.board, n.emptyIndex, m), m, n.board[m]);
    if t0[Rank(child.board)] == 0 {
      assert Discovery(t0, t1, q0, q1, n, d, child);
      DiscoveryStep(t0, t1, d0, d1, q0, q1, n, d, child);
    } else {
      AlreadySeen(t0, d0, n, d);
      DirectionsNext(t0, d0, n, d);
    }
  }

  /** A board reached for the first time: its node is queued and its entry
      becomes the moved tile. */
  method Record(dim3: array<Byte>, q: Queue<Node3>, child: Node3, r: int)
    requires 0 <= r < dim3.Length && 1 <= child.tile <= 8
    modifies dim3, q
    ensures q.contents == old(q.contents) + [child]
    ensures dim3[..] == old(dim3[..])[r := child.tile as Byte]
  {
    q.Enqueue(child);
    dim3[r] := child.tile as Byte;
  }

  /** Expands one direction `d` of the dequeued node `n`: when a tile can
      slide into the empty cell from there and it is not the tile just moved,
      the move is made on the working board, a board not reached before is
      queued, a move deeper than `n`, and gets the moved tile as its entry,
      and the move is undone. */
  method ExpandDirection(dim3: array<Byte>, q: Queue<Node3>, board: array<int>, vm: array2<int>,
                         n: Node3, d: int, ghost depth0: map<seq<int>, nat>)
    returns (ghost depth: map<seq<int>, nat>)
    requires vm.Length0 == NumTiles3 && vm.Length1 == 4
    requires forall i, k :: 0 <= i < NumTiles3 && 0 <= k < 4 ==> vm[i, k] == Neighbour(Dim3, i, k)
    requires board.Length == NumTiles3 && board[..] == n.board && 0 <= d < 4
    requires ExpandOK(dim3[..], depth0, n, q.contents) && DirectionsDone(dim3[..], depth0, n, d)
    modifies dim3, q, board
    ensures board[..] == n.board
    ensures ExpandOK(dim3[..], depth, n, q.contents) && DirectionsDone(dim3[..], depth, n, d + 1)
    ensures Extends(depth0, depth)
    ensures Zeros(dim3[..]) + |q.contents| == Zeros(old(dim3[..])) + |old(q.contents)|
    ensures Zeros(dim3[..]) <= Zeros(old(dim3[..]))
  {
    depth := depth0;
    var e := n.emptyIndex;
    var m := vm[e, d];
    if m == -1 {
      DirectionsNext(dim3[..], depth, n, d);
      return;
    }
    MoveFacts(n.board, e, d);
    var tile := board[m];
    if tile == n.tile {
      ReverseMoveSeen(dim3[..], depth, n, d);
      DirectionsNext(dim3[..], depth, n, d);
      return;
    }
    ghost var t0, q0 := dim3[..], q.contents;
    ghost var child := Node3(MakeMove(n.board, e, m), m, tile);
    MakeMoveOn(board, e, m);
    assert board[..] == child.board;
    RankBelowFactorial(board[..]);
    NumBoards3IsFactorial();
    var r := PermutationRank(board[..]);
    if dim3[r] == 0 {
      Record(dim3, q, Node3(board[..], m, tile), r);
      depth := depth0[child.board := depth0[n.board] + 1];
    }
    UndoMoveOn(board, e, m, tile);
    UndoRestores(n.board, e, m);
    DirectionStep(t0, dim3[..], depth0, depth, q0, q.contents, n, d);
  }

  /** The body of the search loop for one dequeued node: its board is the
      working board, and the four directions are expanded in turn; after
      that, every board one move from it has been reached, at most a move
      deeper. */
  method ExpandNode(dim3: array<Byte>, q: Queue<Node3>, vm: array2<int>, n: Node3, ghost depth0: map<seq<int>, nat>)
    returns (ghost depth: map<seq<int>, nat>)
    requires vm.Length0 == NumTiles3 && vm.Length1 == 4
    requires forall i, k :: 0 <= i < NumTiles3 && 0 <= k < 4 ==> vm[i, k] == Neighbour(Dim3, i, k)
    requires ExpandOK(dim3[..], depth0, n, q.contents)
    modifies dim3, q
    ensures ExpandOK(dim3[..], depth, n, q.contents) && Closed(dim3[..], depth, n.board)
    ensures Extends(depth0, depth)
    ensures Zeros(dim3[..]) + |q.contents| == Zeros(old(dim3[..])) + |old(q.contents)|
    ensures Zeros(dim3[..]) <= Zeros(old(dim3[..]))
  {
    depth := depth0;
    var board := new int[NumTiles3](k requires 0 <= k < NumTiles3 => n.board[k]);
    assert board[..] == n.board;
    for d := 0 to 4
      invariant board[..] == n.board
      invariant ExpandOK(dim3[..], depth, n, q.contents) && DirectionsDone(dim3[..], depth, n, d)
      invariant Extends(depth0, depth)
      invariant Zeros(dim3[..]) + |q.contents| == Zeros(old(dim3[..])) + |old(q.contents)|
      invariant Zeros(dim3[..]) <= Zeros(old(dim3[..]))
    {
      ghost var before := depth;
      depth := ExpandDirection(dim3, q, board, vm, n, d, depth);
      ExtendsChain(depth0, before, depth);
    }
    NodeClosed(dim3[..], depth, n);
  }

  lemma ExtendsChain(d0: map<seq<int>, nat>, d1: map<seq<int>, nat>, d2: map<seq<int>, nat>)
    requires Extends(d0, d1) && Extends(d1, d2)
    ensures Extends(d0, d2)
  {
  }

  /** Closing the front node and taking it off the queue keeps the loop
      invariants. */
  lemma Dequeued(table: seq<Byte>, depth: map<seq<int>, nat>, n: Node3, q: seq<Node3>)
    requires ExpandOK(table, depth, n, q) && Closed(table, depth, n.board)
    ensures SearchOK(table, depth, q)
  {
    ClosureDequeue(table, depth, n, q);
    QueueDepthsDequeue(depth, n, q);
  }

  /** One round of the search loop: the front node is dequeued and
      expanded. Either a board was reached for the first time or the queue
      got shorter. */
  method SearchStep(dim3: array<Byte>, q: Queue<Node3>, vm: array2<int>, ghost depth0: map<seq<int>, nat>)
    returns (ghost depth: map<seq<int>, nat>)
    requires vm.Length0 == NumTiles3 && vm.Length1 == 4
    requires forall i, k :: 0 <= i < NumTiles3 && 0 <= k < 4 ==> vm[i, k] == Neighbour(Dim3, i, k)
    requires SearchOK(dim3[..], depth0, q.contents) && q.contents != []
    modifies dim3, q
    ensures SearchOK(dim3[..], depth, q.contents)
    ensures Zeros(dim3[..]) < Zeros(old(dim3[..])) ||
      (Zeros(dim3[..]) == Zeros(old(dim3[..])) && |q.contents| < |old(q.contents)|)
  {
    QueueDequeue(dim3[..], q.contents);
    ghost var q0 := q.contents;
    var next := q.Dequeue();
    var n := next.value;
    assert [n] + q.contents == q0;
    depth := ExpandNode(dim3, q, vm, n, depth0);
    Dequeued(dim3[..], depth, n, q.contents);
  }

  /** The breadth-first search of `main`: the solved board is queued with
      entry `RootTile`; each dequeued node is expanded in the four directions.
      On return every entry is 0, a tile or `RootTile`; the entries describe
      the solution graph (`EntryOK`); `depth` gives each reached board the
      depth at which it was reached, one more than the board its entry leads
      back to; and every board one move from a reached board has been
      reached, at most one move deeper. */
  method GenerateSolutions() returns (dim3: array<Byte>, ghost depth: map<seq<int>, nat>)
    ensures dim3.Length == NumBoards3
    ensures TableOK(dim3[..]) && GraphOK(dim3[..]) && DepthsOK(dim3[..], depth)
    ensures forall b :: Seen(dim3[..], b) ==> Closed(dim3[..], depth, b)
  {
    var vm := BuildValidMoves3();
    var q;
    dim3, q, depth := StartSearch();
    while q.contents != []
      invariant SearchOK(dim3[..], depth, q.contents)
      modifies dim3, q
      decreases Zeros(dim3[..]), |q.contents|
    {
      depth := SearchStep(dim3, q, vm, depth);
    }
    SearchDone(dim3[..], depth);
  }

  /** The set-up of the search: a table of zeros with the root marked, and
      a queue holding the root. */
  method StartSearch() returns (dim3: array<Byte>, q: Queue<Node3>, ghost depth: map<seq<int>, nat>)
    ensures fresh(dim3) && fresh(q) && dim3.Length == NumBoards3
    ensures SearchOK(dim3[..], depth, q.contents)
  {
    dim3 := new Byte[NumBoards3](_ => 0);
    q := new Queue<Node3>();
    var root := Node3(Solved3, NumTiles3 - 1, RootTile);
    SolvedIsBoard();
    RankBelowFactorial(Solved3);
    NumBoards3IsFactorial();
    var r := PermutationRank(root.board);
    ghost var t0 := dim3[..];
    q.Enqueue(root);
    dim3[r] := RootTile as Byte;
    assert q.contents == [root];
    depth := map[Solved3 := 0];
    RootInvariants(t0, dim3[..], root, depth);
  }

  /** With the queue empty, every reached board is closed. */
  lemma SearchDone(table: seq<Byte>, depth: map<seq<int>, nat>)
    requires SearchOK(table, depth, [])
    ensures TableOK(table) && GraphOK(table) && DepthsOK(table, depth)
    ensures forall b :: Seen(table, b) ==> Closed(table, depth, b)
  {
    assert Boards([]) == {};
  }

  // ---------------------------------------------------------------------
  // What the finished table gives.

  /** The board after sliding a tile into the empty cell from each of the
      directions in turn; a direction that leaves the board is a no-op. */
  function Play(b: seq<int>, dirs: seq<int>): seq<int>
    decreases |dirs|
  {
    if dirs == [] then b
    else if 0 in b && 0 <= dirs[0] < 4 && 0 <= Neighbour(Dim3, IndexOf(b, 0), dirs[0]) < |b| then
      Play(MakeMove(b, IndexOf(b, 0), Neighbour(Dim3, IndexOf(b, 0), dirs[0])), dirs[1..])
    else Play(b, dirs[1..])
  }

  /** When every reached board is closed, every board played from a reached
      board has been reached too. */
  lemma {:induction false} PlayStaysSeen(table: seq<Byte>, depth: map<seq<int>, nat>, b: seq<int>, dirs: seq<int>)
    requires Seen(table, b) && forall x :: Seen(table, x) ==> Closed(table, depth, x)
    ensures Seen(table, Play(b, dirs))
    decreases |dirs|
  {
    if dirs != [] {
      if 0 in b && 0 <= dirs[0] < 4 && 0 <= Neighbour(Dim3, IndexOf(b, 0), dirs[0]) < |b| {
        assert Closed(table, depth, b);
        assert NextSeen(table, depth, b, IndexOf(b, 0), dirs[0]);
        PlayStaysSeen(table, depth, MakeMove(b, IndexOf(b, 0), Neighbour(Dim3, IndexOf(b, 0), dirs[0])), dirs[1..]);
      } else {
        PlayStaysSeen(table, depth, b, dirs[1..]);
      }
    }
  }

  /** The finished table has an entry for every board that can be played
      from the solved board. */
  lemma EveryPlayableBoardHasEntry(table: seq<Byte>, depth: map<seq<int>, nat>, dirs: seq<int>)
    requires GraphOK(table) && forall x :: Seen(table, x) ==> Closed(table, depth, x)
    ensures Seen(table, Play(Solved3, dirs))
  {
    PlayStaysSeen(table, depth, Solved3, dirs);
  }

  /** The directions the table gives from `b` for `k` moves, as the 3x3
      solver follows them: at each board, the direction of the empty cell
      in which its recorded tile lies. */
  ghost function EntryWalk(table: seq<Byte>, b: seq<int>, k: nat): seq<int>
    decreases k
  {
    if k == 0 || !IsBoard3(b) then []
    else
      var t := Entry(table, b);
      if 0 in b && t in b
      then [Opposite(DirectionTo(IndexOf(b, t), IndexOf(b, 0)))] + EntryWalk(table, Parent(table, b), k - 1)
      else []
  }

  /** One step of following the entries from a board with a depth: unless
      it is the solved board, its recorded tile lies next to the empty cell
      in the direction `EntryWalk` takes, and sliding it leads to the
      board's parent, one move shallower. */
  ghost predicate HomeStep(table: seq<Byte>, depth: map<seq<int>, nat>, b: seq<int>)
  {
    IsBoard3(b) && b in depth &&
    (b == Solved3 ==> depth[b] == 0) &&
    (b != Solved3 ==>
      var t := Entry(table, b);
      0 in b && t in b &&
      Neighbour(Dim3, IndexOf(b, 0), Opposite(DirectionTo(IndexOf(b, t), IndexOf(b, 0)))) == IndexOf(b, t) &&
      Parent(table, b) == MakeMove(b, IndexOf(b, 0), IndexOf(b, t)) &&
      Parent(table, b) in depth && depth[Parent(table, b)] + 1 == depth[b])
  }

  ghost predicate HomeSteps(table: seq<Byte>, depth: map<seq<int>, nat>)
  {
    forall b {:trigger HomeStep(table, depth, b)} :: b in depth ==> HomeStep(table, depth, b)
  }

  /** Every board of the finished search takes a step home. */
  lemma EveryBoardStepsHome(table: seq<Byte>, depth: map<seq<int>, nat>)
    requires GraphOK(table) && DepthsOK(table, depth)
    ensures HomeSteps(table, depth)
  {
    forall b | b in depth ensures HomeStep(table, depth, b) {
      if b != Solved3 {
        assert EntryOK(table, b);
        var t := Entry(table, b);
        var e, p := IndexOf(b, 0), IndexOf(b, t);
        NeighbourSymmetric(Dim3, p, DirectionTo(p, e));
      }
    }
  }

  /** Following the entries from a reached board arrives at the solved
      board after exactly as many moves as the board's depth. */
  lemma EntriesLeadHome(table: seq<Byte>, depth: map<seq<int>, nat>, b: seq<int>)
    requires GraphOK(table) && DepthsOK(table, depth) && Seen(table, b)
    ensures |EntryWalk(table, b, depth[b])| == depth[b]
    ensures Play(b, EntryWalk(table, b, depth[b])) == Solved3
  {
    EveryBoardStepsHome(table, depth);
    StepsLeadHome(table, depth, b);
  }

  lemma {:induction false} StepsLeadHome(table: seq<Byte>, depth: map<seq<int>, nat>, b: seq<int>)
    requires HomeSteps(table, depth) && b in depth
    ensures |EntryWalk(table, b, depth[b])| == depth[b]
    ensures Play(b, EntryWalk(table, b, depth[b])) == Solved3
    decreases depth[b]
  {
    assert HomeStep(table, depth, b);
    if b != Solved3 {
      var t := Entry(table, b);
      var e, p := IndexOf(b, 0), IndexOf(b, t);
      var y := Parent(table, b);
      var d := Opposite(DirectionTo(p, e));
      StepsLeadHome(table, depth, y);
      var rest := EntryWalk(table, y, depth[y]);
      EntryWalkFirst(table, b, depth[b]);
      assert EntryWalk(table, b, depth[b]) == [d] + rest;
      PlayFirst(b, d, rest);
      assert MakeMove(b, e, Neighbour(Dim3, e, d)) == y;
    }
  }

  /** The first direction of the walk the entries give, and the rest from
      the parent. */
  lemma EntryWalkFirst(table: seq<Byte>, b: seq<int>, k: nat)
    requires 1 <= k && IsBoard3(b) && 0 in b && Entry(table, b) in b
    ensures EntryWalk(table, b, k) ==
      [Opposite(DirectionTo(IndexOf(b, Entry(table, b)), IndexOf(b, 0)))] + EntryWalk(table, Parent(table, b), k - 1)
  {
  }

  /** Playing a walk whose first move stays on the board is making that
      move and playing the rest. */
  lemma PlayFirst(b: seq<int>, d: int, rest: seq<int>)
    requires 0 in b && 0 <= d < 4 && 0 <= Neighbour(Dim3, IndexOf(b, 0), d) < |b|
    ensures Play(b, [d] + rest) == Play(MakeMove(b, IndexOf(b, 0), Neighbour(Dim3, IndexOf(b, 0), d)), rest)
  {
    assert ([d] + rest)[1..] == rest;
  }

  /** No walk from a reached board to the solved board is shorter than the
      board's depth, so the walk the entries give is a shortest one. */
  lemma {:induction false} NoShorterWalk(table: seq<Byte>, depth: map<seq<int>, nat>, b: seq<int>, dirs: seq<int>)
    requires DepthsOK(table, depth) && forall x :: Seen(table, x) ==> Closed(table, depth, x)
    requires Seen(table, b) && Play(b, dirs) == Solved3
    ensures depth[b] <= |dirs|
    decreases |dirs|
  {
    if dirs != [] {
      if 0 in b && 0 <= dirs[0] < 4 && 0 <= Neighbour(Dim3, IndexOf(b, 0), dirs[0]) < |b| {
        var e, d := IndexOf(b, 0), dirs[0];
        var m := Neighbour(Dim3, e, d);
        var y := MakeMove(b, e, m);
        MoveFacts(b, e, d);
        NeighbourSymmetric(Dim3, e, d);
        assert Closed(table, depth, b);
        assert NextSeen(table, depth, b, e, d);
        assert Closed(table, depth, y);
        assert NextSeen(table, depth, y, m, Opposite(d));
        NoShorterWalk(table, depth, y, dirs[1..]);
      } else {
        NoShorterWalk(table, depth, b, dirs[1..]);
      }
    }
  }
}
