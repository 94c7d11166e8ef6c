/** `permuation_rank`: the linear-time ranking of a permutation of
    0 .. n - 1 used to index the 3x3 solution graph (Myrvold and Ruskey's
    swapping trick, with the factoradic digits weighted by n!/(n - i)!).

    The rank is specified digit by digit on a shrinking pool of unseen
    labels: the digit of the next entry is its index in the pool, and the
    pool then loses that slot, which takes the pool's last label. `Unrank`
    runs the same steps backwards, and the two are proved inverse. */
module Ranking {
  import opened Common

  /** The pool after consuming slot `k`: slot `k` takes the pool's last
      label and the pool shrinks by one. */
  function Remove(pool: seq<int>, k: nat): (r: seq<int>)
    requires k < |pool|
    ensures |r| == |pool| - 1
  {
    pool[k := pool[|pool| - 1]][..|pool| - 1]
  }

  /** Removing a slot removes exactly its label. */
  lemma RemoveTakesOneLabel(pool: seq<int>, k: nat)
    requires k < |pool|
    ensures multiset(Remove(pool, k)) == multiset(pool) - multiset{pool[k]}
  {
    DropLastLabel(pool[k := pool[|pool| - 1]]);
  }

  /** A pool of distinct labels stays distinct. */
  lemma RemoveKeepsDistinct(pool: seq<int>, k: nat)
    requires k < |pool| && Distinct(pool)
    ensures Distinct(Remove(pool, k))
  {
    RemoveTakesOneLabel(pool, k);
  }

  /** The label `a[0]` is in the pool, and the rest of `a` is a
      rearrangement of the pool once that label's slot is consumed. */
  lemma NextDigit(pool: seq<int>, a: seq<int>)
    requires Distinct(pool) && multiset(a) == multiset(pool) && a != []
    ensures a[0] in pool
    ensures multiset(a[1..]) == multiset(Remove(pool, IndexOf(pool, a[0])))
    ensures Distinct(Remove(pool, IndexOf(pool, a[0])))
  {
    assert a == [a[0]] + a[1..];
    assert a[0] in multiset(pool);
    RemoveTakesOneLabel(pool, IndexOf(pool, a[0]));
    RemoveKeepsDistinct(pool, IndexOf(pool, a[0]));
  }

  lemma DigitBound(n: nat, k: nat, rest: nat)
    requires n >= 1 && k < n && rest < Factorial(n - 1)
    ensures k + n * rest < Factorial(n)
  {
    var f := Factorial(n - 1);
    assert Factorial(n) == n * f;
    MulMonotone(n, rest, f - 1);
    assert n * (f - 1) == n * f - n;
  }

  /** The rank of `a` relative to `pool`: the index of `a[0]` in the pool is
      the least significant digit, weighted 1, and the rest of `a` is ranked
      against the shrunken pool with weight |pool|. Ranking stops at a label
      missing from the pool, which never happens for a rearrangement of it. */
  function RankFrom(pool: seq<int>, a: seq<int>): nat
    decreases |a|
  {
    if a == [] || a[0] !in pool then
      0
    else
      var k := IndexOf(pool, a[0]);
      k + |pool| * RankFrom(Remove(pool, k), a[1..])
  }

  /** Every rank relative to a pool of n labels is below n!. */
  lemma {:induction false} RankFromBelowFactorial(pool: seq<int>, a: seq<int>)
    ensures RankFrom(pool, a) < Factorial(|pool|)
    decreases |a|
  {
    if a != [] && a[0] in pool {
      var k := IndexOf(pool, a[0]);
      RankFromBelowFactorial(Remove(pool, k), a[1..]);
      DigitBound(|pool|, k, RankFrom(Remove(pool, k), a[1..]));
    }
  }

  /** The rank of a permutation of 0 .. n - 1, as `permuation_rank` defines it. */
  function Rank(a: seq<int>): nat
    requires IsPermutation(a, |a|)
  {
    RankFrom(Identity(|a|), a)
  }

  /** The rank of a permutation of 0 .. n - 1 lies in 0 .. n! - 1. */
  lemma RankBelowFactorial(a: seq<int>)
    requires IsPermutation(a, |a|)
    ensures Rank(a) < Factorial(|a|)
  {
    RankFromBelowFactorial(Identity(|a|), a);
  }

  lemma QuotientBound(n: nat, r: nat)
    requires n >= 1 && r < Factorial(n)
    ensures r / n < Factorial(n - 1)
  {
    assert Factorial(n) == Factorial(n - 1) * n;
    QuotientBelow(r, n, Factorial(n - 1));
  }

  /** The arrangement of `pool` whose rank is `r`: the digit `r % |pool|`
      picks the first label, and `r / |pool|` ranks the rest against the
      shrunken pool. */
  function Unrank(pool: seq<int>, r: nat): (a: seq<int>)
    ensures |a| == |pool|
    decreases |pool|
  {
    if pool == [] then [] else [pool[r % |pool|]] + Unrank(Remove(pool, r % |pool|), r / |pool|)
  }

  /** Unranking rearranges the pool. */
  lemma {:induction false} UnrankRearranges(pool: seq<int>, r: nat)
    ensures multiset(Unrank(pool, r)) == multiset(pool)
    decreases |pool|
  {
    if pool != [] {
      var n := |pool|;
      RemoveTakesOneLabel(pool, r % n);
      UnrankRearranges(Remove(pool, r % n), r / n);
    }
  }

  /** One step of `RankFrom`, with the facts its recursive call needs. */
  lemma RankFromStep(pool: seq<int>, a: seq<int>)
    requires Distinct(pool) && multiset(a) == multiset(pool) && a != []
    ensures a[0] in pool && |a| == |pool|
    ensures Distinct(Remove(pool, IndexOf(pool, a[0])))
    ensures multiset(a[1..]) == multiset(Remove(pool, IndexOf(pool, a[0])))
    ensures RankFrom(pool, a) == IndexOf(pool, a[0]) + |pool| * RankFrom(Remove(pool, IndexOf(pool, a[0])), a[1..])
  {
    NextDigit(pool, a);
    assert |a| == |multiset(a)| == |pool|;
  }

  /** Ranking a permutation that starts with the label of slot `k`. */
  lemma RankOfCons(pool: seq<int>, k: nat, rest: seq<int>)
    requires Distinct(pool) && k < |pool|
    requires multiset(rest) == multiset(Remove(pool, k))
    ensures multiset([pool[k]] + rest) == multiset(pool)
    ensures RankFrom(pool, [pool[k]] + rest) == k + |pool| * RankFrom(Remove(pool, k), rest)
  {
    RemoveTakesOneLabel(pool, k);
    var a := [pool[k]] + rest;
    assert a[0] == pool[k] && a[1..] == rest;
    RankFromStep(pool, a);
    IndexOfDistinct(pool, k);
  }

  /** A digit and a quotient put back together give the number they came from. */
  lemma Recombine(r: nat, n: nat, x: int)
    requires n >= 1 && x == r % n + n * (r / n)
    ensures x == r
  {
    DivModSplit(r, n);
  }

  /** Ranking undoes unranking. */
  lemma {:induction false} RankOfUnrank(pool: seq<int>, r: nat)
    requires Distinct(pool) && r < Factorial(|pool|)
    ensures RankFrom(pool, Unrank(pool, r)) == r
    decreases |pool|, 1
  {
    if pool != [] {
      var n := |pool|;
      QuotientBound(n, r);
      RankOfUnrankDigit(pool, r % n, r / n);
      assert Unrank(pool, r) == [pool[r % n]] + Unrank(Remove(pool, r % n), r / n);
      Recombine(r, n, RankFrom(pool, Unrank(pool, r)));
    }
  }

  /** The digit `k` picked first, and the rest unranked from `q`, rank back
      to `k + |pool| * q`. */
  lemma {:induction false} RankOfUnrankDigit(pool: seq<int>, k: nat, q: nat)
    requires Distinct(pool) && k < |pool| && q < Factorial(|pool| - 1)
    ensures RankFrom(pool, [pool[k]] + Unrank(Remove(pool, k), q)) == k + |pool| * q
    decreases |pool|, 0
  {
    var smaller := Remove(pool, k);
    var rest := Unrank(smaller, q);
    assert RankFrom(smaller, rest) == q by {
      RemoveKeepsDistinct(pool, k);
      RankOfUnrank(smaller, q);
    }
    assert RankFrom(pool, [pool[k]] + rest) == k + |pool| * RankFrom(smaller, rest) by {
      UnrankRearranges(smaller, q);
      RankOfCons(pool, k, rest);
    }
  }

  /** Unranking undoes ranking. */
  lemma {:induction false} UnrankOfRank(pool: seq<int>, a: seq<int>)
    requires Distinct(pool) && multiset(a) == multiset(pool)
    ensures Unrank(pool, RankFrom(pool, a)) == a
    decreases |a|
  {
    if a == [] {
      assert |pool| == |multiset(pool)| == 0;
    } else {
      assert a[0] in pool by { NextDigit(pool, a); }
      var n := |pool|;
      var k := IndexOf(pool, a[0]);
      var smaller := Remove(pool, k);
      var rest := RankFrom(smaller, a[1..]);
      var r := RankFrom(pool, a);
      assert r % n == k && r / n == rest by {
        assert r == rest * n + k;
        DivModOfDigit(n, rest, k);
      }
      assert Unrank(smaller, rest) == a[1..] by {
        NextDigit(pool, a);
        UnrankOfRank(smaller, a[1..]);
      }
      assert Unrank(pool, r) == [pool[k]] + Unrank(smaller, rest);
      assert a == [a[0]] + a[1..];
    }
  }

  /** Distinct permutations of the same length have distinct ranks. */
  lemma RankInjective(a: seq<int>, b: seq<int>)
    requires |a| == |b| && IsPermutation(a, |a|) && IsPermutation(b, |b|)
    ensures Rank(a) == Rank(b) ==> a == b
  {
    PermutationFacts(Identity(|a|), |a|);
    UnrankOfRank(Identity(|a|), a);
    UnrankOfRank(Identity(|b|), b);
  }

  /** Every number below n! is the rank of some permutation of 0 .. n - 1. */
  lemma RankSurjective(n: nat, r: nat)
    requires r < Factorial(n)
    ensures IsPermutation(Unrank(Identity(n), r), n)
    ensures Rank(Unrank(Identity(n), r)) == r
  {
    PermutationFacts(Identity(n), n);
    UnrankRearranges(Identity(n), r);
    RankOfUnrank(Identity(n), r);
  }

  /** The worked example of the 3x3 generator: the digits of [2, 0, 1, 4, 3]
      are 2, 0, 1, 1, 0 and its rank is 2 + 0 * 5 + 1 * 20 + 1 * 60 = 82. */
  lemma WorkedExample()
    ensures IsPermutation([2, 0, 1, 4, 3], 5)
    ensures Rank([2, 0, 1, 4, 3]) == 82
  {
    ExamplePermutation();
    assert Rank([2, 0, 1, 4, 3]) == RankFrom([0, 1, 2, 3, 4], [2, 0, 1, 4, 3]) by {
      assert Identity(5) == [0, 1, 2, 3, 4];
    }
    ExampleDigits();
  }

  /** [2, 0, 1, 4, 3] is three exchanges away from [0, 1, 2, 3, 4]. */
  lemma ExamplePermutation()
    ensures IsPermutation([2, 0, 1, 4, 3], 5)
  {
    assert Identity(5) == [0, 1, 2, 3, 4];
    assert multiset([2, 0, 1, 4, 3]) == multiset{0, 1, 2, 3, 4};
  }

  /** The first digit of the worked example is 2, weighted 1. */
  lemma ExampleDigits()
    ensures RankFrom([0, 1, 2, 3, 4], [2, 0, 1, 4, 3]) == 82
  {
    ExampleSecondDigit();
    assert IndexOf([0, 1, 2, 3, 4], 2) == 2;
    assert Remove([0, 1, 2, 3, 4], 2) == [0, 1, 4, 3];
  }

  /** The second digit is 0, weighted 5. */
  lemma ExampleSecondDigit()
    ensures RankFrom([0, 1, 4, 3], [0, 1, 4, 3]) == 16
  {
    ExampleLastDigits();
    assert IndexOf([0, 1, 4, 3], 0) == 0;
    assert Remove([0, 1, 4, 3], 0) == [3, 1, 4];
  }

  /** The digits 1, 1 and 0, weighted 20, 60 and 120. */
  lemma ExampleLastDigits()
    ensures RankFrom([3, 1, 4], [1, 4, 3]) == 4
  {
    assert IndexOf([3, 1, 4], 1) == 1;
    assert Remove([3, 1, 4], 1) == [3, 4];
    assert IndexOf([3, 4], 4) == 1;
    assert Remove([3, 4], 1) == [3];
    assert RankFrom([3], [3]) == 0;
  }

  /** One digit of the rank: the slot `pos` holding the next label is the
      digit, and the rest is ranked against the pool without that slot. */
  lemma RankStep(pool: seq<int>, a: seq<int>, pos: nat)
    requires Distinct(pool) && multiset(a) == multiset(pool) && a != []
    requires pos < |pool| && pool[pos] == a[0]
    ensures Distinct(Remove(pool, pos)) && multiset(a[1..]) == multiset(Remove(pool, pos))
    ensures RankFrom(pool, a) == pos + |pool| * RankFrom(Remove(pool, pos), a[1..])
  {
    IndexOfDistinct(pool, pos);
    RankFromStep(pool, a);
  }

  /** The updates of `numbers` and `positions` in one step of the loop:
      the last active slot moves into the consumed slot `pos`, so the active
      prefix of `numbers` becomes the shrunken pool and `positions` still
      locates every active label. */
  lemma ConsumeSlot(numbers: seq<int>, positions: seq<int>, len: nat, pos: nat, numbers': seq<int>, positions': seq<int>)
    requires 0 <= pos < len <= |numbers| && Distinct(numbers[..len])
    requires forall j :: 0 <= j < len ==> 0 <= numbers[j] < |positions| && positions[numbers[j]] == j
    requires numbers' == numbers[pos := numbers[len - 1]]
    requires positions' == positions[numbers[len - 1] := pos]
    ensures numbers'[..len - 1] == Remove(numbers[..len], pos)
    ensures forall j :: 0 <= j < len - 1 ==> 0 <= numbers'[j] < |positions'| && positions'[numbers'[j]] == j
  {
    forall j | 0 <= j < len - 1
      ensures 0 <= numbers'[j] < |positions'| && positions'[numbers'[j]] == j
    {
      if j != pos {
        DistinctIndex(numbers[..len], j, len - 1);
      }
    }
  }

  /** Moving one digit from the unranked rest into the accumulated rank. */
  lemma Regroup(rank: int, m: int, digit: int, weight: int, rest: int, value: int, total: int)
    requires value == digit + weight * rest && rank + m * value == total
    ensures (rank + m * digit) + (m * weight) * rest == total
  {
    assert m * value == m * digit + (m * weight) * rest;
  }

  /** The state of `permuation_rank` before step `i`: the first n - i
      entries of `numbers` are the pool of labels not yet seen, `positions`
      locates each of them, and the digits accumulated so far plus the
      weighted rank of the rest of the board make up the rank of the board. */
  ghost predicate RankLoopInvariant(board: seq<int>, i: nat, numbers: seq<int>, positions: seq<int>, rank: int, m: int)
  {
    var n := |board|;
    IsPermutation(board, n) && i < n && |numbers| == n && |positions| == n &&
    Distinct(numbers[..n - i]) && multiset(board[i..]) == multiset(numbers[..n - i]) &&
    (forall j :: 0 <= j < n - i ==> 0 <= numbers[j] < n && positions[numbers[j]] == j) &&
    m >= 1 && rank + m * RankFrom(numbers[..n - i], board[i..]) == Rank(board)
  }

  /** Both auxiliary arrays start as 0 .. n - 1, with nothing ranked yet. */
  lemma RankLoopStart(board: seq<int>)
    requires IsPermutation(board, |board|) && |board| >= 1
    ensures RankLoopInvariant(board, 0, Identity(|board|), Identity(|board|), 0, 1)
  {
    var n := |board|;
    PermutationFacts(Identity(n), n);
    assert Identity(n)[..n] == Identity(n);
    assert board[0..] == board;
  }

  /** The entries one iteration reads lie inside the auxiliary arrays. */
  lemma RankLoopIndices(board: seq<int>, i: nat, numbers: seq<int>, positions: seq<int>, rank: int, m: int)
    requires RankLoopInvariant(board, i, numbers, positions, rank, m) && i + 1 < |board|
    ensures 0 <= board[i] < |board| == |numbers| == |positions|
    ensures 0 <= positions[board[i]] < |board| - i
    ensures 0 <= numbers[|board| - i - 1] < |board|
  {
    SlotOfNext(board[i..], numbers, positions, |board| - i);
  }

  /** One iteration of the loop keeps the invariant: the label at `board[i]`
      is overwritten by the last label of the pool, the digit is its position
      and the weight grows by the size of the pool. */
  lemma RankLoopStep(board: seq<int>, i: nat, numbers: seq<int>, positions: seq<int>, rank: int, m: int,
                     numbers': seq<int>, positions': seq<int>, rank': int, m': int)
    requires RankLoopInvariant(board, i, numbers, positions, rank, m) && i + 1 < |board|
    requires 0 <= board[i] < |positions| && 0 <= positions[board[i]] < |numbers|
    requires 0 <= |board| - i - 1 && 0 <= numbers[|board| - i - 1] < |positions|
    requires numbers' == numbers[positions[board[i]] := numbers[|board| - i - 1]]
    requires positions' == positions[numbers[|board| - i - 1] := positions[board[i]]]
    requires rank' == rank + m * positions[board[i]] && m' == m * (|board| - i)
    ensures RankLoopInvariant(board, i + 1, numbers', positions', rank', m')
  {
    var n := |board|;
    var pool := numbers[..n - i];
    var pos := positions[board[i]];
    SlotOfNext(board[i..], numbers, positions, n - i);
    ConsumeSlot(numbers, positions, n - i, pos, numbers', positions');
    DigitOfNext(pool, board[i..], pos, rank, m, Rank(board));
    assert board[i..][1..] == board[i + 1..];
  }

  /** The slot that `positions` gives for the next label holds that label. */
  lemma SlotOfNext(a: seq<int>, numbers: seq<int>, positions: seq<int>, len: nat)
    requires len <= |numbers| && a != [] && Distinct(numbers[..len]) && multiset(a) == multiset(numbers[..len])
    requires forall j :: 0 <= j < len ==> 0 <= numbers[j] < |positions| && positions[numbers[j]] == j
    ensures 0 <= a[0] < |positions| && 0 <= positions[a[0]] < len && numbers[positions[a[0]]] == a[0]
  {
    NextDigit(numbers[..len], a);
    assert numbers[IndexOf(numbers[..len], a[0])] == a[0];
  }

  /** Consuming the slot `pos` of the next label moves its digit into the
      accumulated rank, with the weight multiplied by the size of the pool. */
  lemma DigitOfNext(pool: seq<int>, a: seq<int>, pos: nat, rank: int, m: int, total: int)
    requires Distinct(pool) && multiset(a) == multiset(pool) && a != []
    requires pos < |pool| && pool[pos] == a[0] && m >= 1
    requires rank + m * RankFrom(pool, a) == total
    ensures Distinct(Remove(pool, pos)) && multiset(a[1..]) == multiset(Remove(pool, pos))
    ensures m * |pool| >= 1
    ensures (rank + m * pos) + (m * |pool|) * RankFrom(Remove(pool, pos), a[1..]) == total
  {
    RankStep(pool, a, pos);
    Regroup(rank, m, pos, |pool|, RankFrom(Remove(pool, pos), a[1..]), RankFrom(pool, a), total);
    MulAtLeast(m, |pool|);
  }

  /** After the last iteration the one remaining digit is 0. */
  lemma RankLoopEnd(board: seq<int>, numbers: seq<int>, positions: seq<int>, rank: int, m: int)
    requires |board| >= 1 && RankLoopInvariant(board, |board| - 1, numbers, positions, rank, m)
    ensures rank == Rank(board)
  {
    var n := |board|;
    var pool := numbers[..1];
    assert board[n - 1..] == [board[n - 1]];
    assert board[n - 1] in pool by { NextDigit(pool, board[n - 1..]); }
    assert RankFrom(pool, board[n - 1..]) == 0;
  }

  /** The first loop of `permuation_rank`: both auxiliary arrays become
      0 .. n - 1. */
  method InitIdentity(positions: array<int>, numbers: array<int>)
    requires positions.Length == numbers.Length && positions != numbers
    modifies positions, numbers
    ensures positions[..] == Identity(positions.Length) && numbers[..] == Identity(numbers.Length)
  {
    for i := 0 to positions.Length
      invariant forall k :: 0 <= k < i ==> positions[k] == k && numbers[k] == k
    {
      positions[i] := i;
      numbers[i] := i;
    }
  }

  /** One iteration of the main loop of `permuation_rank`: the slot of
      `board[i]` is the next digit, and the last label of the pool moves
      into it. */
  method ConsumeNext(board: seq<int>, i: nat, numbers: array<int>, positions: array<int>, rank: int, m: int)
    returns (rank': int, m': int)
    requires numbers != positions && i + 1 < |board|
    requires RankLoopInvariant(board, i, numbers[..], positions[..], rank, m)
    modifies numbers, positions
    ensures RankLoopInvariant(board, i + 1, numbers[..], positions[..], rank', m')
  {
    ghost var nums, poss := numbers[..], positions[..];
    RankLoopIndices(board, i, nums, poss, rank, m);
    var n := numbers.Length;
    var pos := positions[board[i]];
    var last := numbers[n - i - 1];
    numbers[pos] := last;
    positions[last] := pos;
    rank', m' := rank + m * pos, m * (n - i);
    RankLoopStep(board, i, nums, poss, rank, m, numbers[..], positions[..], rank', m');
  }

  /** `permuation_rank`: one pass over the board with the two auxiliary
      arrays, accumulating the digits on the fly; the last digit is always 0
      and is skipped. */
  method PermutationRank(board: seq<int>) returns (rank: int)
    requires IsPermutation(board, |board|) && |board| >= 1
    ensures rank == Rank(board)
  {
    var n := |board|;
    var positions := new int[n];
    var numbers := new int[n];
    InitIdentity(positions, numbers);
    rank := 0;
    var m := 1;
    RankLoopStart(board);
    var i: nat := 0;
    while i < n - 1
      invariant RankLoopInvariant(board, i, numbers[..], positions[..], rank, m)
      decreases n - i
    {
      rank, m := ConsumeNext(board, i, numbers, positions, rank, m);
      i := i + 1;
    }
    RankLoopEnd(board, numbers[..], positions[..], rank, m);
  }
}
