/** Permutation parity and the solvability test (logic.c and the standalone
    4x4 solver). `swap` exchanges two entries of an array and counts the
    exchange unless the two values are equal; `quicksort` sorts a range with
    Lomuto partitions around the last entry and counts its exchanges; the
    parity of that count is the parity of the permutation, which together
    with the empty cell's taxicab distance to the lower-right corner decides
    whether a board can be solved. */
module Parity {
  import opened Common
  import opened Geometry

  predicate Even(n: int)
  {
    n % 2 == 0
  }

  // ---------------------------------------------------------------------
  // Inversions.

  /** How many entries of `t` are below `x`. */
  function CountBelow(t: seq<int>, x: int): (n: nat)
    ensures n <= |t|
  {
    if t == [] then 0 else (if t[0] < x then 1 else 0) + CountBelow(t[1..], x)
  }

  /** The number of pairs i < j with s[i] > s[j]. */
  function Inversions(s: seq<int>): nat
  {
    if s == [] then 0 else CountBelow(s[1..], s[0]) + Inversions(s[1..])
  }

  /** Exchanging two neighbouring entries leaves every count of smaller
      entries alone. */
  lemma {:induction false} CountBelowAdjacentSwap(t: seq<int>, k: int, x: int)
    requires 0 <= k < |t| - 1
    ensures CountBelow(Swap(t, k, k + 1), x) == CountBelow(t, x)
  {
    var u := Swap(t, k, k + 1);
    if k == 0 {
      assert u[1..][1..] == t[1..][1..];
    } else {
      assert u[1..] == Swap(t[1..], k - 1, k);
      CountBelowAdjacentSwap(t[1..], k - 1, x);
    }
  }

  /** Exchanging two unequal neighbouring entries adds or removes exactly
      one inversion. */
  lemma {:induction false} AdjacentSwapInversions(s: seq<int>, k: int)
    requires 0 <= k < |s| - 1 && s[k] != s[k + 1]
    ensures Inversions(Swap(s, k, k + 1)) == Inversions(s) + (if s[k] < s[k + 1] then 1 else -1)
  {
    var u := Swap(s, k, k + 1);
    if k == 0 {
      var t := s[2..];
      assert s[1..] == [s[1]] + t && u[1..] == [s[0]] + t;
      assert s[1..][1..] == t && u[1..][1..] == t;
    } else {
      assert u[1..] == Swap(s[1..], k - 1, k);
      CountBelowAdjacentSwap(s[1..], k - 1, s[0]);
      AdjacentSwapInversions(s[1..], k - 1);
    }
  }

  /** A far exchange is a near exchange on each side of a shorter one. */
  lemma SwapByAdjacent(s: seq<int>, i: int, j: int)
    requires 0 <= i && i + 1 < j < |s|
    ensures Swap(s, i, j) == Swap(Swap(Swap(s, i, i + 1), i + 1, j), i, i + 1)
  {
    var s1 := Swap(s, i, i + 1);
    var s2 := Swap(s1, i + 1, j);
    var s3, t := Swap(s2, i, i + 1), Swap(s, i, j);
    forall k | 0 <= k < |s| ensures s3[k] == t[k] {
      if k == i {
        assert s3[k] == s2[i + 1] == s1[j] == s[j];
      } else if k == i + 1 {
        assert s3[k] == s2[i] == s1[i] == s[i + 1];
      } else if k == j {
        assert s3[k] == s2[j] == s1[i + 1] == s[i];
      }
    }
  }

  /** Exchanging two entries of a sequence of distinct labels changes the
      parity of its inversions. */
  lemma SwapFlipsParity(s: seq<int>, t: seq<int>, i: int, j: int)
    requires Distinct(s) && 0 <= i < |s| && 0 <= j < |s| && i != j && t == Swap(s, i, j)
    ensures !Even(Inversions(t) + Inversions(s))
  {
    var k;
    if j < i {
      assert t == Swap(s, j, i);
      k := ForwardSwapOdd(s, t, j, i);
    } else {
      k := ForwardSwapOdd(s, t, i, j);
    }
    OddSum(t, s, k);
  }

  lemma OddSum(t: seq<int>, s: seq<int>, k: int)
    requires Inversions(t) + Inversions(s) == 2 * k + 1
    ensures !Even(Inversions(t) + Inversions(s))
  {
  }

  /** The inversions before and after an exchange of s[i] and s[j], i < j,
      add up to an odd number. */
  lemma {:induction false} ForwardSwapOdd(s: seq<int>, t: seq<int>, i: int, j: int) returns (k: int)
    requires Distinct(s) && 0 <= i < j < |s| && t == Swap(s, i, j)
    ensures Inversions(t) + Inversions(s) == 2 * k + 1
    decreases j - i
  {
    var n0: int := Inversions(s);
    DistinctIndex(s, i, i + 1);
    AdjacentSwapInversions(s, i);
    var s1 := Swap(s, i, i + 1);
    var n1: int := Inversions(s1);
    if j == i + 1 {
      assert t == s1;
      k := if n1 == n0 + 1 then n0 else n1;
    } else {
      var s2 := Swap(s1, i + 1, j);
      DistinctPermuted(s, s1);
      var k' := ForwardSwapOdd(s1, s2, i + 1, j);
      var n2: int := Inversions(s2);
      DistinctIndex(s, i + 1, j);
      assert s2[i] == s[i + 1] && s2[i + 1] == s[j];
      AdjacentSwapInversions(s2, i);
      var s3 := Swap(s2, i, i + 1);
      var n3: int := Inversions(s3);
      SwapByAdjacent(s, i, j);
      assert s3 == t;
      assert n1 + n2 == 2 * k' + 1;
      k := if n3 == n2 + 1 && n1 == n0 - 1 then k' + 1
        else if n3 == n2 - 1 && n1 == n0 + 1 then k' - 1
        else k';
    }
  }

  /** No entry of `t` is below `x`. */
  lemma {:induction false} NoneBelow(t: seq<int>, x: int)
    requires forall k :: 0 <= k < |t| ==> x <= t[k]
    ensures CountBelow(t, x) == 0
  {
    if t != [] {
      NoneBelow(t[1..], x);
    }
  }

  /** A sorted sequence has no inversions. */
  lemma {:induction false} SortedNoInversions(s: seq<int>)
    requires forall k, l :: 0 <= k < l < |s| ==> s[k] <= s[l]
    ensures Inversions(s) == 0
  {
    if s != [] {
      NoneBelow(s[1..], s[0]);
      SortedNoInversions(s[1..]);
    }
  }

  /** Sequences with the same labels are distinct together. */
  lemma DistinctPermuted(s: seq<int>, t: seq<int>)
    requires multiset(s) == multiset(t) && Distinct(s)
    ensures Distinct(t)
  {
    forall x ensures multiset(t)[x] <= 1 {
      assert multiset(s)[x] <= 1;
    }
  }

  // ---------------------------------------------------------------------
  // Counting exchanges.

  /** `count` exchanges took `s0` to `s1` with the parity of a product of
      `count` transpositions. */
  ghost predicate Tracked(s0: seq<int>, s1: seq<int>, count: int)
  {
    Even(count + Inversions(s0) + Inversions(s1))
  }

  /** Counts taken at three moments: the exchanges of two stretches add
      up. */
  lemma TrackedChain(s0: seq<int>, s1: seq<int>, s2: seq<int>, c0: int, c1: int, c2: int)
    requires Tracked(s0, s1, c1 - c0) && Tracked(s1, s2, c2 - c1)
    ensures Tracked(s0, s2, c2 - c0)
  {
    EvenSum(c1 - c0 + Inversions(s0) + Inversions(s1), c2 - c1 + Inversions(s1) + Inversions(s2), Inversions(s1));
  }

  lemma EvenSum(x: int, y: int, z: int)
    requires Even(x) && Even(y)
    ensures Even(x + y - 2 * z)
  {
  }

  /** `swap`: equal values are left alone and not counted; unequal values
      are exchanged and counted once, which changes the inversion parity of
      an array of distinct labels. */
  method SwapCounted(a: array<int>, i: int, j: int, count: int) returns (count': int)
    requires 0 <= i < a.Length && 0 <= j < a.Length
    modifies a
    ensures old(a[i]) == old(a[j]) ==> a[..] == old(a[..]) && count' == count
    ensures old(a[i]) != old(a[j]) ==> a[..] == Swap(old(a[..]), i, j) && count' == count + 1
    ensures multiset(a[..]) == multiset(old(a[..]))
    ensures Distinct(old(a[..])) ==> Tracked(old(a[..]), a[..], count' - count)
  {
    if a[i] == a[j] {
      assert a[..] == Swap(a[..], i, j);
      return count;
    }
    ghost var s := a[..];
    count' := count + 1;
    var temp := a[i];
    a[i] := a[j];
    a[j] := temp;
    assert a[..] == Swap(s, i, j);
    SwapTracked(s, a[..], i, j);
  }

  /** One exchange of two different entries is one step of the count. */
  lemma SwapTracked(s: seq<int>, t: seq<int>, i: int, j: int)
    requires 0 <= i < |s| && 0 <= j < |s| && s[i] != s[j] && t == Swap(s, i, j)
    ensures Distinct(s) ==> Tracked(s, t, 1)
  {
    if Distinct(s) {
      SwapFlipsParity(s, t, i, j);
    }
  }

  /** Nothing outside [low, high] differs. */
  ghost predicate SameOutside(s0: seq<int>, s1: seq<int>, low: int, high: int)
  {
    |s0| == |s1| && forall k :: 0 <= k < |s0| && !(low <= k <= high) ==> s1[k] == s0[k]
  }

  /** Every entry of [lo, hi] is at most `v`, or (when `above`) above `v`. */
  ghost predicate Bounded(s: seq<int>, lo: int, hi: int, v: int, above: bool)
  {
    forall k :: 0 <= lo <= k <= hi < |s| ==> if above then s[k] > v else s[k] <= v
  }

  /** Rearranging [lo, hi] keeps the bound its entries had. */
  lemma BoundedPermuted(s0: seq<int>, s1: seq<int>, lo: int, hi: int, v: int, above: bool)
    requires 0 <= lo && hi < |s0| && multiset(s0) == multiset(s1) && SameOutside(s0, s1, lo, hi)
    requires Bounded(s0, lo, hi, v, above)
    ensures Bounded(s1, lo, hi, v, above)
  {
    if lo <= hi {
      SegmentPermuted(s0, s1, lo, hi);
      forall k | lo <= k <= hi ensures if above then s1[k] > v else s1[k] <= v {
        assert s1[k] == s1[lo..hi + 1][k - lo];
        assert s1[k] in multiset(s1[lo..hi + 1]);
        assert s1[k] in s0[lo..hi + 1];
        var k0 :| 0 <= k0 < hi + 1 - lo && s0[lo..hi + 1][k0] == s1[k];
        assert s0[lo + k0] == s1[k];
      }
    }
  }

  /** A rearrangement that keeps everything outside [lo, hi] rearranges
      [lo, hi]. */
  lemma SegmentPermuted(s0: seq<int>, s1: seq<int>, lo: int, hi: int)
    requires 0 <= lo <= hi < |s0| && multiset(s0) == multiset(s1) && SameOutside(s0, s1, lo, hi)
    ensures multiset(s0[lo..hi + 1]) == multiset(s1[lo..hi + 1])
  {
    var p0, m0, q0 := s0[..lo], s0[lo..hi + 1], s0[hi + 1..];
    var m1 := s1[lo..hi + 1];
    assert s0 == p0 + m0 + q0;
    assert s1 == p0 + m1 + q0;
    assert multiset(s0) == multiset(p0) + multiset(m0) + multiset(q0);
    assert multiset(s1) == multiset(p0) + multiset(m1) + multiset(q0);
    assert multiset(m0) == multiset(s0) - multiset(p0) - multiset(q0);
    assert multiset(m1) == multiset(s1) - multiset(p0) - multiset(q0);
  }

  /** What the partition loop keeps, `c` exchanges in and `i` entries
      examined: entries not above the pivot value `v` in [low, pivot), the
      others in [pivot, i), the pivot still last, nothing outside the range
      touched. */
  ghost predicate PartitionInv(s0: seq<int>, s: seq<int>, low: int, high: int, i: int, pivot: int, v: int, c: int)
  {
    0 <= low <= pivot <= i <= high < |s| && s[high] == v &&
    Bounded(s, low, pivot - 1, v, false) && Bounded(s, pivot, i - 1, v, true) &&
    SameOutside(s0, s, low, high) && multiset(s) == multiset(s0) && c >= 0 &&
    (Distinct(s0) ==> Tracked(s0, s, c))
  }

  /** One pass of the partition loop: an entry not above the pivot value
      is exchanged to the front. */
  method PartitionStep(a: array<int>, low: int, high: int, i: int, pivot: int, c: int, ghost s0: seq<int>)
    returns (pivot': int, c': int)
    requires 0 <= high < a.Length && PartitionInv(s0, a[..], low, high, i, pivot, a[high], c) && i < high
    modifies a
    ensures PartitionInv(s0, a[..], low, high, i + 1, pivot', old(a[high]), c')
  {
    pivot', c' := pivot, c;
    ghost var s, v := a[..], a[high];
    if a[i] <= a[high] {
      c' := SwapCounted(a, i, pivot, c);
      ExchangeKeeps(s0, s, a[..], low, high, i, pivot, v, c, c');
      pivot' := pivot + 1;
    } else {
      assert Bounded(s, pivot, i, v, true);
    }
  }

  /** The exchange of a partition pass keeps the loop's invariant. */
  lemma ExchangeKeeps(s0: seq<int>, s: seq<int>, s': seq<int>, low: int, high: int, i: int, pivot: int, v: int, c: int, c': int)
    requires PartitionInv(s0, s, low, high, i, pivot, v, c) && i < high && s[i] <= v
    requires s[i] == s[pivot] ==> s' == s && c' == c
    requires s[i] != s[pivot] ==> s' == Swap(s, i, pivot) && c' == c + 1
    requires Distinct(s) ==> Tracked(s, s', c' - c)
    ensures PartitionInv(s0, s', low, high, i + 1, pivot + 1, v, c')
  {
    assert s' == Swap(s, i, pivot);
    ExchangeBounded(s0, s, s', low, high, i, pivot, v);
    ExchangeTracked(s0, s, s', c, c');
  }

  /** The exchange count stays in step with the inversions. */
  lemma ExchangeTracked(s0: seq<int>, s: seq<int>, s': seq<int>, c: int, c': int)
    requires multiset(s) == multiset(s0)
    requires Distinct(s0) ==> Tracked(s0, s, c)
    requires Distinct(s) ==> Tracked(s, s', c' - c)
    ensures Distinct(s0) ==> Tracked(s0, s', c')
  {
    if Distinct(s0) {
      DistinctPermuted(s0, s);
      TrackedChain(s0, s, s', 0, c, c');
    }
  }

  /** The exchange moves an entry not above `v` to the front of the range
      and leaves everything outside the range alone. */
  lemma ExchangeBounded(s0: seq<int>, s: seq<int>, s': seq<int>, low: int, high: int, i: int, pivot: int, v: int)
    requires 0 <= low <= pivot <= i < high < |s| && s[high] == v && s[i] <= v && s' == Swap(s, i, pivot)
    requires Bounded(s, low, pivot - 1, v, false) && Bounded(s, pivot, i - 1, v, true)
    requires SameOutside(s0, s, low, high) && multiset(s) == multiset(s0)
    ensures s'[high] == v && Bounded(s', low, pivot, v, false) && Bounded(s', pivot + 1, i, v, true)
    ensures SameOutside(s0, s', low, high) && multiset(s') == multiset(s0)
  {
  }

  /** The partition step of `quicksort`: with the last entry as pivot,
      every entry not above it is exchanged to the front of the range and
      the pivot is exchanged in behind them. */
  method Partition(a: array<int>, low: int, high: int, count: int) returns (pivot: int, count': int)
    requires 0 <= low < high < a.Length
    modifies a
    ensures low <= pivot <= high && a[pivot] == old(a[high])
    ensures Bounded(a[..], low, pivot - 1, a[pivot], false) && Bounded(a[..], pivot + 1, high, a[pivot], true)
    ensures SameOutside(old(a[..]), a[..], low, high) && multiset(a[..]) == multiset(old(a[..]))
    ensures count' >= count
    ensures Distinct(old(a[..])) ==> Tracked(old(a[..]), a[..], count' - count)
  {
    ghost var s0 := a[..];
    var v := a[high];
    var c := 0;
    pivot := low;
    for i := low to high
      invariant PartitionInv(s0, a[..], low, high, i, pivot, v, c)
    {
      pivot, c := PartitionStep(a, low, high, i, pivot, c, s0);
    }
    pivot, c := PartitionFinish(a, low, high, pivot, c, s0);
    count' := count + c;
  }

  /** The pivot is exchanged in behind the entries not above it. */
  method PartitionFinish(a: array<int>, low: int, high: int, pivot: int, c: int, ghost s0: seq<int>)
    returns (pivot': int, c': int)
    requires 0 <= high < a.Length && PartitionInv(s0, a[..], low, high, high, pivot, a[high], c)
    modifies a
    ensures low <= pivot' <= high && a[pivot'] == old(a[high]) && pivot' == pivot
    ensures Bounded(a[..], low, pivot' - 1, a[pivot'], false) && Bounded(a[..], pivot' + 1, high, a[pivot'], true)
    ensures SameOutside(s0, a[..], low, high) && multiset(a[..]) == multiset(s0)
    ensures c' >= 0
    ensures Distinct(s0) ==> Tracked(s0, a[..], c')
  {
    ghost var s := a[..];
    ghost var v := a[high];
    pivot' := pivot;
    c' := SwapCounted(a, pivot, high, c);
    assert a[..] == Swap(s, pivot, high);
    FinishBounded(s0, s, a[..], low, high, pivot, v);
    ExchangeTracked(s0, s, a[..], c, c');
  }

  /** Exchanging the pivot in behind the entries not above it leaves those
      entries in front of it and the rest behind it. */
  lemma FinishBounded(s0: seq<int>, s: seq<int>, s': seq<int>, low: int, high: int, pivot: int, v: int)
    requires 0 <= low <= pivot <= high < |s| && s[high] == v && s' == Swap(s, pivot, high)
    requires Bounded(s, low, pivot - 1, v, false) && Bounded(s, pivot, high - 1, v, true)
    requires SameOutside(s0, s, low, high) && multiset(s) == multiset(s0)
    ensures s'[pivot] == v && Bounded(s', low, pivot - 1, v, false) && Bounded(s', pivot + 1, high, v, true)
    ensures SameOutside(s0, s', low, high) && multiset(s') == multiset(s0)
  {
  }

  /** [lo, hi] is in ascending order. */
  ghost predicate SortedRange(s: seq<int>, lo: int, hi: int)
  {
    forall k, l :: 0 <= lo <= k < l <= hi < |s| ==> s[k] <= s[l]
  }

  /** A sorted range below the pivot, the pivot, and a sorted range above
      it make one sorted range. */
  lemma SortedJoin(s: seq<int>, low: int, pivot: int, high: int)
    requires 0 <= low <= pivot <= high < |s|
    requires SortedRange(s, low, pivot - 1) && SortedRange(s, pivot + 1, high)
    requires Bounded(s, low, pivot - 1, s[pivot], false) && Bounded(s, pivot + 1, high, s[pivot], true)
    ensures SortedRange(s, low, high)
  {
    forall k, l | low <= k < l <= high ensures s[k] <= s[l] {
      if l < pivot || k > pivot {
      } else {
        assert s[k] <= s[pivot] <= s[l];
      }
    }
  }

  /** A range outside the one rearranged keeps its order. */
  lemma SortedKept(s0: seq<int>, s1: seq<int>, lo: int, hi: int, low: int, high: int)
    requires SortedRange(s0, lo, hi) && SameOutside(s0, s1, low, high) && (hi < low || high < lo)
    ensures SortedRange(s1, lo, hi)
  {
  }

  /** Two rearrangements inside [low, high] leave everything outside it. */
  lemma OutsideChain(s0: seq<int>, s1: seq<int>, s2: seq<int>, low: int, high: int, lo: int, hi: int)
    requires SameOutside(s0, s1, low, high) && SameOutside(s1, s2, lo, hi) && low <= lo && hi <= high
    ensures SameOutside(s0, s2, low, high)
  {
  }

  /** `quicksort`: sorts [low, high] into ascending order as a
      rearrangement of its entries, leaves every other entry alone, and
      counts a number of exchanges whose parity is that of the permutation
      when the labels are distinct. */
  method Quicksort(a: array<int>, low: int, high: int, count: int) returns (count': int)
    requires low < high ==> 0 <= low && high < a.Length
    modifies a
    ensures SortedRange(a[..], low, high)
    ensures SameOutside(old(a[..]), a[..], low, high) && multiset(a[..]) == multiset(old(a[..]))
    ensures count' >= count
    ensures Distinct(old(a[..])) ==> Tracked(old(a[..]), a[..], count' - count)
    decreases high - low
  {
    count' := count;
    if low < high {
      ghost var s0 := a[..];
      var pivot, c1 := Partition(a, low, high, count);
      ghost var s1 := a[..];
      var c2 := Quicksort(a, low, pivot - 1, c1);
      ghost var s2 := a[..];
      count' := Quicksort(a, pivot + 1, high, c2);
      ghost var s3 := a[..];
      OutsideChain(s0, s1, s2, low, high, low, pivot - 1);
      OutsideChain(s0, s2, s3, low, high, pivot + 1, high);
      BoundedPermuted(s1, s2, low, pivot - 1, s1[pivot], false);
      BoundedPermuted(s2, s3, pivot + 1, high, s1[pivot], true);
      SortedKept(s2, s3, low, pivot - 1, pivot + 1, high);
      SortedJoin(s3, low, pivot, high);
      if Distinct(s0) {
        DistinctPermuted(s0, s1);
        DistinctPermuted(s1, s2);
        TrackedChain(s0, s1, s2, count, c1, c2);
        TrackedChain(s0, s2, s3, count, c2, count');
      }
    }
  }
}

module Solvability {
  import opened Common
  import opened Geometry
  import opened Parity

  // ---------------------------------------------------------------------
  // The parity invariant of a board.

  /** The board with the first empty cell relabelled as the tile count: the
      empty tile counted as the last tile. */
  function Relabelled(b: seq<int>): (r: seq<int>)
    requires 0 in b
    ensures |r| == |b| && r[IndexOf(b, 0)] == |b|
    ensures forall k :: 0 <= k < |b| && k != IndexOf(b, 0) ==> r[k] == b[k]
  {
    b[IndexOf(b, 0) := |b|]
  }

  /** The row of cell `i` of a board `side` cells wide, by repeated
      subtraction. */
  function Row(side: nat, i: nat): nat
    requires side >= 1
    decreases i
  {
    if i < side then 0 else 1 + Row(side, i - side)
  }

  /** The column of cell `i`. */
  function Col(side: nat, i: nat): nat
    requires side >= 1
    decreases i
  {
    if i < side then i else Col(side, i - side)
  }

  /** Cell (r, c) is in row r and column c. */
  lemma {:induction false} RowColOfCell(side: nat, r: nat, c: nat)
    requires side >= 1 && c < side
    ensures Row(side, r * side + c) == r && Col(side, r * side + c) == c
  {
    if r > 0 {
      assert r * side + c - side == (r - 1) * side + c;
      RowColOfCell(side, r - 1, c);
    }
  }

  /** Row and column are the quotient and the remainder. */
  lemma RowColDivMod(side: nat, i: nat)
    requires side >= 1
    ensures Row(side, i) == i / side && Col(side, i) == i % side
  {
    DivModSplit(i, side);
    assert i == (i / side) * side + i % side;
    RowColOfCell(side, i / side, i % side);
  }

  /** Rows plus columns from cell (r, c) to the lower-right corner. */
  function Taxicab(side: nat, r: int, c: int): int
  {
    (side - 1 - c) + (side - 1 - r)
  }

  /** The taxicab distance of the empty cell. */
  function EmptyTaxicab(side: nat, b: seq<int>): int
    requires side >= 1 && 0 in b
  {
    Taxicab(side, Row(side, IndexOf(b, 0)), Col(side, IndexOf(b, 0)))
  }

  /** The permutation parity of the relabelled board plus the taxicab
      distance of the empty cell is even. */
  predicate ParityEven(side: nat, b: seq<int>)
    requires side >= 1 && 0 in b
  {
    Even(Inversions(Relabelled(b)) + EmptyTaxicab(side, b))
  }

  /** Relabelling a permutation of 0 .. n - 1 gives distinct labels. */
  lemma RelabelledDistinct(b: seq<int>, n: nat)
    requires IsPermutation(b, n) && 0 in b
    ensures Distinct(Relabelled(b))
  {
    PermutationFacts(b, n);
    var r, e := Relabelled(b), IndexOf(b, 0);
    forall p, q | 0 <= p < q < |r| ensures r[p] != r[q] {
      if p != e && q != e {
        DistinctIndex(b, p, q);
      }
    }
    PairwiseDistinct(r);
  }

  /** A move takes the empty cell one row or one column further. */
  lemma TaxicabStep(side: nat, e: int, d: int)
    requires side >= 1 && 0 <= e < side * side && 0 <= d < 4 && Neighbour(side, e, d) != -1
    ensures 0 <= Neighbour(side, e, d)
    ensures var m := Neighbour(side, e, d);
      var t0, t1 := Taxicab(side, Row(side, e), Col(side, e)), Taxicab(side, Row(side, m), Col(side, m));
      t1 == t0 + 1 || t1 == t0 - 1
  {
    var r, c := SplitCell(side, e);
    TaxicabStepCell(side, r, c, d);
  }

  lemma TaxicabStepCell(side: nat, r: int, c: int, d: int)
    requires side >= 1 && 0 <= r < side && 0 <= c < side && 0 <= d < 4
    requires Neighbour(side, r * side + c, d) != -1
    ensures 0 <= Neighbour(side, r * side + c, d)
    ensures var e, m := r * side + c, Neighbour(side, r * side + c, d);
      var t0, t1 := Taxicab(side, Row(side, e), Col(side, e)), Taxicab(side, Row(side, m), Col(side, m));
      t1 == t0 + 1 || t1 == t0 - 1
  {
    NeighbourIsAdjacent(side, r, c, d);
    RowColOfCell(side, r, c);
    if d == Above {
      RowColOfCell(side, r - 1, c);
    } else if d == Right {
      RowColOfCell(side, r, c + 1);
    } else if d == Below {
      RowColOfCell(side, r + 1, c);
    } else {
      RowColOfCell(side, r, c - 1);
    }
  }

  /** A parity change of the inversions and a step of one in the distance
      keep the sum's parity. */
  lemma ParityKept(i0: int, i1: int, t0: int, t1: int)
    requires !Even(i1 + i0) && (t1 == t0 + 1 || t1 == t0 - 1)
    ensures Even(i1 + t1) <==> Even(i0 + t0)
  {
  }

  /** The inversions change parity and the distance changes by one: the
      invariant is kept. */
  lemma ParityStep(side: nat, b: seq<int>, c: seq<int>)
    requires side >= 1 && 0 in b && 0 in c
    requires !Even(Inversions(Relabelled(c)) + Inversions(Relabelled(b)))
    requires EmptyTaxicab(side, c) == EmptyTaxicab(side, b) + 1 || EmptyTaxicab(side, c) == EmptyTaxicab(side, b) - 1
    ensures ParityEven(side, c) <==> ParityEven(side, b)
  {
    ParityKept(Inversions(Relabelled(b)), Inversions(Relabelled(c)), EmptyTaxicab(side, b), EmptyTaxicab(side, c));
  }

  /** A move out of the empty cell of a permutation board: still a
      permutation, the empty cell is now `m`, and the relabelled board is the
      relabelled original with two entries exchanged. */
  lemma MoveRelabels(n: nat, b: seq<int>, e: int, m: int)
    requires IsPermutation(b, n) && 0 in b && e == IndexOf(b, 0) && 0 <= m < |b| && m != e
    ensures var c := MakeMove(b, e, m);
      IsPermutation(c, n) && 0 in c && IndexOf(c, 0) == m &&
      Distinct(Relabelled(b)) && Relabelled(c) == Swap(Relabelled(b), e, m)
  {
    MovedEmpty(n, b, e, m);
    RelabelledSwap(b, e, m);
    RelabelledDistinct(b, n);
  }

  /** After a move the permutation's 0 sits at the moved-from cell. */
  lemma MovedEmpty(n: nat, b: seq<int>, e: int, m: int)
    requires IsPermutation(b, n) && 0 in b && e == IndexOf(b, 0) && 0 <= m < |b| && m != e
    ensures var c := MakeMove(b, e, m);
      IsPermutation(c, n) && 0 in c && IndexOf(c, 0) == m
  {
    var c := MakeMove(b, e, m);
    MoveIsSwap(b, e, m);
    PermutationFacts(b, n);
    DistinctPermuted(b, c);
    IndexOfDistinct(c, m);
  }

  /** Relabelling commutes with a move: the relabelled entries are
      exchanged. */
  lemma RelabelledSwap(b: seq<int>, e: int, m: int)
    requires 0 in b && e == IndexOf(b, 0) && 0 <= m < |b| && m != e
    requires 0 in MakeMove(b, e, m) && IndexOf(MakeMove(b, e, m), 0) == m
    ensures Relabelled(MakeMove(b, e, m)) == Swap(Relabelled(b), e, m)
  {
    var c, rb := MakeMove(b, e, m), Relabelled(b);
    var r, s := Relabelled(c), Swap(rb, e, m);
    forall k | 0 <= k < |r| ensures r[k] == s[k] {
      if k == m {
        assert r[k] == |b| == rb[e];
      } else if k == e {
        assert r[k] == c[e] == b[m] == rb[m];
      } else {
        assert r[k] == c[k] == b[k] == rb[k];
      }
    }
  }

  /** A legal move keeps the board a permutation and keeps the parity
      invariant. */
  lemma MoveKeepsParity(side: nat, b: seq<int>, e: int, d: int, m: int)
    requires side >= 1 && IsPermutation(b, side * side) && 0 <= d < 4
    requires 0 in b && e == IndexOf(b, 0) && m == Neighbour(side, e, d) && 0 <= m < |b|
    ensures var c := MakeMove(b, e, m);
      IsPermutation(c, side * side) && 0 in c && (ParityEven(side, c) <==> ParityEven(side, b))
  {
    PermutationLength(b, side * side);
    TaxicabStep(side, e, d);
    var c := MakeMove(b, e, m);
    MovedEmpty(side * side, b, e, m);
    RelabelledSwap(b, e, m);
    RelabelledDistinct(b, side * side);
    SwapInversions(b, c, e, m);
    ParityAfterStep(side, b, c, e, m);
  }

  /** Exchanging two cells of the relabelled board flips its inversion
      parity. */
  lemma SwapInversions(b: seq<int>, c: seq<int>, e: int, m: int)
    requires 0 in b && 0 in c && 0 <= e < |b| && 0 <= m < |b| && e != m
    requires Distinct(Relabelled(b)) && Relabelled(c) == Swap(Relabelled(b), e, m)
    ensures !Even(Inversions(Relabelled(c)) + Inversions(Relabelled(b)))
  {
    SwapFlipsParity(Relabelled(b), Relabelled(c), e, m);
  }

  /** Flipping the inversion parity while the empty cell moves one step
      keeps the parity invariant. */
  lemma ParityAfterStep(side: nat, b: seq<int>, c: seq<int>, e: int, m: int)
    requires side >= 1 && 0 in b && 0 in c && IndexOf(b, 0) == e && IndexOf(c, 0) == m
    requires !Even(Inversions(Relabelled(c)) + Inversions(Relabelled(b)))
    requires var t0, t1 := Taxicab(side, Row(side, e), Col(side, e)), Taxicab(side, Row(side, m), Col(side, m));
      t1 == t0 + 1 || t1 == t0 - 1
    ensures ParityEven(side, c) <==> ParityEven(side, b)
  {
    EmptyTaxicabStep(side, b, c, e, m);
    ParityStep(side, b, c);
  }

  /** The empty cell's distance changes by one when it moves one step. */
  lemma EmptyTaxicabStep(side: nat, b: seq<int>, c: seq<int>, e: nat, m: nat)
    requires side >= 1 && 0 in b && 0 in c && IndexOf(b, 0) == e && IndexOf(c, 0) == m
    requires var t0, t1 := Taxicab(side, Row(side, e), Col(side, e)), Taxicab(side, Row(side, m), Col(side, m));
      t1 == t0 + 1 || t1 == t0 - 1
    ensures EmptyTaxicab(side, c) == EmptyTaxicab(side, b) + 1 || EmptyTaxicab(side, c) == EmptyTaxicab(side, b) - 1
  {
  }

  /** Any sequence of moves keeps the board a permutation and keeps the
      parity invariant. */
  lemma {:induction false} PlayKeepsParity(side: nat, b: seq<int>, dirs: seq<int>)
    requires side >= 1 && |b| == side * side && IsPermutation(b, side * side) && 0 in b
    ensures IsPermutation(Play(side, b, dirs), side * side)
    ensures ParityEven(side, Play(side, b, dirs)) <==> ParityEven(side, b)
    decreases |dirs|
  {
    if dirs != [] {
      var e, d := IndexOf(b, 0), dirs[0];
      if 0 <= d < 4 && Neighbour(side, e, d) != -1 {
        var m := Neighbour(side, e, d);
        NeighbourSymmetric(side, e, d);
        MoveKeepsParity(side, b, e, d, m);
        var c := MakeMove(b, e, m);
        assert Play(side, b, dirs) == Play(side, c, dirs[1..]);
        PlayKeepsParity(side, c, dirs[1..]);
      } else {
        assert Play(side, b, dirs) == Play(side, b, dirs[1..]);
        PlayKeepsParity(side, b, dirs[1..]);
      }
    }
  }

  /** The solved board satisfies the invariant: its relabelling is sorted
      and its empty cell is the corner. */
  lemma SolvedParityEven(side: nat)
    requires side >= 1
    ensures 0 in SolvedBoard(side * side) && ParityEven(side, SolvedBoard(side * side))
  {
    var n := side * side;
    MulAtLeast(side, side);
    var s := SolvedBoard(n);
    assert s[n - 1] == 0;
    forall k | 0 <= k < n - 1 ensures s[k] != 0 { }
    assert IndexOf(s, 0) == n - 1 by {
      var i := IndexOf(s, 0);
      assert s[i] == 0;
    }
    var r := Relabelled(s);
    assert forall k :: 0 <= k < n ==> r[k] == k + 1;
    SortedNoInversions(r);
    assert n - 1 == (side - 1) * side + (side - 1);
    RowColOfCell(side, side - 1, side - 1);
  }

  /** A permutation board with odd parity can never be slid into the solved
      board. */
  lemma OddParityUnsolvable(side: nat, b: seq<int>, dirs: seq<int>)
    requires side >= 1 && |b| == side * side && IsPermutation(b, side * side) && 0 in b
    requires !ParityEven(side, b)
    ensures Play(side, b, dirs) != SolvedBoard(side * side)
  {
    PlayKeepsParity(side, b, dirs);
    SolvedParityEven(side);
  }

  /** Exchanging two tiles of a permutation board, neither of them the
      empty one, keeps the empty cell where it is and flips the parity of
      the relabelled board, so it flips the invariant. */
  lemma SwapTilesFlips(side: nat, b: seq<int>, b': seq<int>, e: int, i: int, j: int)
    requires side >= 1 && |b| == side * side && IsPermutation(b, side * side)
    requires 0 <= e < |b| && b[e] == 0
    requires 0 <= i < |b| && 0 <= j < |b| && i != j && b[i] != 0 && b[j] != 0 && b' == Swap(b, i, j)
    ensures IsPermutation(b', side * side) && 0 in b && 0 in b' && b'[e] == 0
    ensures ParityEven(side, b') <==> !ParityEven(side, b)
  {
    SwapKeepsEmpty(b, b', side * side, e, i, j);
    RelabelledDistinct(b, side * side);
    SwapInversions(b, b', i, j);
    ParityFlipStep(side, b, b');
  }

  /** Flipping the inversion parity while the empty cell stays put flips
      the parity invariant. */
  lemma ParityFlipStep(side: nat, b: seq<int>, b': seq<int>)
    requires side >= 1 && 0 in b && 0 in b' && IndexOf(b', 0) == IndexOf(b, 0)
    requires !Even(Inversions(Relabelled(b')) + Inversions(Relabelled(b)))
    ensures ParityEven(side, b') <==> !ParityEven(side, b)
  {
    ParityFlip(Inversions(Relabelled(b')), Inversions(Relabelled(b)), EmptyTaxicab(side, b));
  }

  /** Adding the same distance to two counts of opposite parity gives sums
      of opposite parity. */
  lemma ParityFlip(x: int, y: int, t: int)
    requires !Even(x + y)
    ensures Even(x + t) <==> !Even(y + t)
  {
  }

  /** The exchange leaves the empty tile where it is, so it exchanges the
      same two entries of the relabelled board. */
  lemma SwapKeepsEmpty(b: seq<int>, b': seq<int>, m: nat, e: int, i: int, j: int)
    requires |b| == m && IsPermutation(b, m) && 0 <= e < m && b[e] == 0
    requires 0 <= i < m && 0 <= j < m && i != j && b[i] != 0 && b[j] != 0 && b' == Swap(b, i, j)
    ensures IsPermutation(b', m) && 0 in b && 0 in b'
    ensures IndexOf(b, 0) == e && IndexOf(b', 0) == e
    ensures Relabelled(b') == Swap(Relabelled(b), i, j)
  {
    PermutationFacts(b, m);
    IndexOfDistinct(b, e);
    assert b'[e] == 0;
    assert IndexOf(b', 0) == e by {
      var k := IndexOf(b', 0);
      assert k != i && k != j;
      DistinctIndex(b, k, e);
    }
  }

  // ---------------------------------------------------------------------
  // `is_solvable` on the 4 x 4 board.

  /** The scan of `is_solvable` for the empty tile: the index of the first
      empty cell, or the length of the board when there is none. */
  function ScanForEmpty(b: seq<int>): (i: nat)
    ensures i <= |b| && (i < |b| <==> 0 in b)
    ensures i < |b| ==> b[i] == 0 && i == IndexOf(b, 0)
    ensures forall k :: 0 <= k < i ==> b[k] != 0
  {
    if b == [] then 0 else if b[0] == 0 then 0 else 1 + ScanForEmpty(b[1..])
  }

  /** The sorted relabelled board has no inversions, so the count of the
      sort has the parity of the permutation. */
  lemma CountParity(count: int, inv: int, sortedInv: int, t: int)
    requires Even(count + inv + sortedInv) && sortedInv == 0
    ensures Even(count + t) <==> Even(inv + t)
  {
  }

  /** The exchange count of sorting the relabelled permutation board, plus
      the taxicab distance of its empty cell, has the parity of the
      invariant. */
  lemma SortedCountParity(b: seq<int>, s0: seq<int>, s1: seq<int>, count: int, i: int, taxicab: int)
    requires IsPermutation(b, 16) && 0 in b && IndexOf(b, 0) == i && s0 == Relabelled(b)
    requires |s1| == 16 && SortedRange(s1, 0, 15)
    requires Distinct(s0) ==> Tracked(s0, s1, count - 0)
    requires taxicab == 4 - 1 - i % 4 + 4 - 1 - i / 4
    ensures Even(count + taxicab) <==> ParityEven(4, b)
  {
    RelabelledDistinct(b, 16);
    SortedNoInversions(s1);
    RowColDivMod(4, i);
    CountParity(count, Inversions(s0), Inversions(s1), taxicab);
  }

  /** `is_solvable`: a board with no empty cell is refused; otherwise the
      empty cell is relabelled 16 in a copy, the copy is quicksorted, and
      the board is accepted exactly when the number of exchanges plus the
      taxicab distance of the empty cell from the lower-right corner is
      even. For a permutation of 0 .. 15 this is the parity invariant. */
  method IsSolvable(board: array<int>) returns (r: bool)
    requires board.Length == 16
    ensures r ==> 0 in board[..]
    ensures IsPermutation(board[..], 16) && 0 in board[..] ==> (r <==> ParityEven(4, board[..]))
  {
    var i := FindEmpty(board);
    if i == 16 {
      return false;
    }
    ghost var b := board[..];
    var arr := RelabelledCopy(board, i);
    ghost var s0 := arr[..];
    var count := Quicksort(arr, 0, 15, 0);
    assert board[..] == b;
    var taxicab := 4 - 1 - i % 4 + 4 - 1 - i / 4;
    r := (count + taxicab) % 2 == 0;
    if IsPermutation(b, 16) {
      SortedCountParity(b, s0, arr[..], count, i, taxicab);
    }
  }

  /** The scan of `is_solvable` for the empty tile. */
  method FindEmpty(board: array<int>) returns (i: int)
    ensures i == ScanForEmpty(board[..])
  {
    i := 0;
    while i < board.Length && board[i] != 0
      invariant 0 <= i <= board.Length
      invariant forall k :: 0 <= k < i ==> board[k] != 0
    {
      i := i + 1;
    }
    ScanForEmptyFirst(board[..], i);
  }

  /** The scan stops at the first empty cell, or at the end. */
  lemma {:induction false} ScanForEmptyFirst(b: seq<int>, i: int)
    requires 0 <= i <= |b| && (i < |b| ==> b[i] == 0)
    requires forall k :: 0 <= k < i ==> b[k] != 0
    ensures ScanForEmpty(b) == i
  {
    if i > 0 {
      ScanForEmptyFirst(b[1..], i - 1);
    }
  }

  /** The copy `is_solvable` sorts: the board with its empty tile, the
      first one, relabelled 16. */
  method RelabelledCopy(board: array<int>, i: int) returns (arr: array<int>)
    requires board.Length == 16 && 0 <= i < 16 && i == ScanForEmpty(board[..])
    ensures 0 in board[..] && IndexOf(board[..], 0) == i
    ensures fresh(arr) && arr[..] == Relabelled(board[..])
  {
    ghost var b := board[..];
    assert b[i] == 0 && IndexOf(b, 0) == i;
    arr := new int[16];
    forall k | 0 <= k < 16 {
      arr[k] := board[k];
    }
    arr[i] := 16;
    assert board[..] == b;
    assert arr[..] == Relabelled(b);
  }

}
