/** Definitions shared by every part of the model: C's fixed-width values,
    an option type, integer powers and factorials, and permutations of
    small integer labels held in a sequence. */
module Common {

  /** An unsigned 8-bit value, the element type of every persisted table (`uint8_t`). */
  newtype Byte = x: int | 0 <= x < 256

  /** `UINT8_MAX`: the "unset" value of the pattern-database tables and the wildcard tile label. */
  const UInt8Max: Byte := 255

  /** `INT_MAX` on the targets the solvers are built for. */
  const IntMax: int := 2147483647

  datatype Option<T> = None | Some(value: T)

  function Pow(b: nat, e: nat): (r: nat)
    ensures b >= 1 ==> r >= 1
  {
    if e == 0 then 1 else b * Pow(b, e - 1)
  }

  function Factorial(n: nat): (r: nat)
    ensures r >= 1
  {
    if n == 0 then 1 else n * Factorial(n - 1)
  }

  function Min(a: int, b: int): int { if a <= b then a else b }

  function Max(a: int, b: int): int { if a >= b then a else b }

  /** No label occurs twice: every label is counted at most once. */
  ghost predicate Distinct(s: seq<int>)
  {
    forall x :: multiset(s)[x] <= 1
  }

  /** [0, 1, ..., n - 1]. */
  function Identity(n: nat): (s: seq<int>)
    ensures |s| == n
  {
    seq(n, i => i)
  }

  /** The solved board of n cells: tiles 1 .. n - 1 in order, then the empty
      tile 0 in the last cell. */
  function SolvedBoard(n: nat): (s: seq<int>)
    requires n >= 1
    ensures |s| == n
  {
    seq(n - 1, i => i + 1) + [0]
  }

  /** `s` holds each of 0 .. n - 1 exactly once. */
  predicate IsPermutation(s: seq<int>, n: nat)
  {
    multiset(s) == multiset(Identity(n))
  }

  /** The solved board holds each of 0 .. n - 1 once. */
  lemma SolvedIsPermutation(n: nat)
    requires n >= 1
    ensures IsPermutation(SolvedBoard(n), n)
  {
    var id := Identity(n);
    assert id == [0] + id[1..];
    assert SolvedBoard(n) == id[1..] + [0];
    calc {
      multiset(SolvedBoard(n));
      multiset(id[1..]) + multiset{0};
      multiset([0] + id[1..]);
    }
  }

  lemma RepeatCountsTwice(s: seq<int>, i: int, j: int)
    requires 0 <= i < j < |s|
    ensures s[i] == s[j] ==> multiset(s)[s[i]] >= 2
  {
    assert s == s[..i] + [s[i]] + s[i + 1..j] + [s[j]] + s[j + 1..];
  }

  /** In a sequence of distinct labels, equal entries sit at the same index. */
  lemma DistinctIndex(s: seq<int>, i: int, j: int)
    requires Distinct(s) && 0 <= i < |s| && 0 <= j < |s|
    ensures s[i] == s[j] ==> i == j
  {
    if i < j {
      RepeatCountsTwice(s, i, j);
    } else if j < i {
      RepeatCountsTwice(s, j, i);
    }
  }

  /** Entries that differ pairwise are distinct labels. */
  lemma {:induction false} PairwiseDistinct(s: seq<int>)
    requires forall i, j :: 0 <= i < j < |s| ==> s[i] != s[j]
    ensures Distinct(s)
  {
    if s != [] {
      assert s == [s[0]] + s[1..];
      PairwiseDistinct(s[1..]);
      assert s[0] !in s[1..] by {
        forall j | 0 <= j < |s[1..]| ensures s[1..][j] != s[0] { assert s[j + 1] != s[0]; }
      }
    }
  }

  lemma {:induction false} IdentityDistinct(n: nat)
    ensures Distinct(Identity(n))
  {
    if n > 0 {
      IdentityDistinct(n - 1);
      assert Identity(n) == Identity(n - 1) + [n - 1];
      assert n - 1 !in Identity(n - 1);
    }
  }

  /** A permutation of 0 .. n - 1 has n entries. */
  lemma PermutationLength(s: seq<int>, n: nat)
    requires IsPermutation(s, n)
    ensures |s| == n
  {
    assert |s| == |multiset(s)| == |multiset(Identity(n))| == n;
  }

  /** What a permutation of 0 .. n - 1 is, entry by entry. */
  lemma PermutationFacts(s: seq<int>, n: nat)
    requires IsPermutation(s, n)
    ensures |s| == n && Distinct(s)
    ensures forall i :: 0 <= i < |s| ==> 0 <= s[i] < n
    ensures forall v :: 0 <= v < n <==> v in s
  {
    assert |s| == |multiset(s)| == |multiset(Identity(n))| == n;
    IdentityDistinct(n);
    forall i | 0 <= i < |s| ensures 0 <= s[i] < n {
      assert s[i] in multiset(s);
      assert s[i] in multiset(Identity(n));
    }
    forall v ensures 0 <= v < n <==> v in s {
      assert v in s <==> v in multiset(s);
      assert v in Identity(n) <==> 0 <= v < n by {
        if 0 <= v < n { assert Identity(n)[v] == v; }
      }
    }
  }

  /** The sequence with the entries at `i` and `j` exchanged. */
  function Swap(s: seq<int>, i: int, j: int): (r: seq<int>)
    requires 0 <= i < |s| && 0 <= j < |s|
    ensures |r| == |s| && r[i] == s[j] && r[j] == s[i]
    ensures forall k :: 0 <= k < |s| && k != i && k != j ==> r[k] == s[k]
    ensures multiset(r) == multiset(s)
  {
    s[i := s[j]][j := s[i]]
  }

  /** Dropping the last entry drops one copy of its label. */
  lemma DropLastLabel(s: seq<int>)
    requires |s| >= 1
    ensures multiset(s[..|s| - 1]) == multiset(s) - multiset{s[|s| - 1]}
  {
    assert s == s[..|s| - 1] + [s[|s| - 1]];
  }

  /** The first index holding `x`. */
  function IndexOf(s: seq<int>, x: int): (k: nat)
    requires x in s
    ensures k < |s| && s[k] == x
  {
    if s[0] == x then 0 else 1 + IndexOf(s[1..], x)
  }

  /** In a sequence of distinct labels, the label at `k` is first found at `k`. */
  lemma IndexOfDistinct(s: seq<int>, k: nat)
    requires Distinct(s) && k < |s|
    ensures IndexOf(s, s[k]) == k
  {
    DistinctIndex(s, IndexOf(s, s[k]), k);
  }

  lemma MulAtLeast(a: int, d: int)
    requires a >= 1 && d >= 1
    ensures a * d >= d
  {
    assert a * d == (a - 1) * d + d;
    assert (a - 1) * d >= 0;
  }

  lemma MulMonotone(a: int, b: int, c: int)
    requires a >= 0 && b <= c
    ensures a * b <= a * c
  {
    assert a * c - a * b == a * (c - b);
    assert a * (c - b) >= 0;
  }

  lemma MulNonPositive(a: int, d: int)
    requires d >= 1
    ensures a <= 0 ==> a * d <= 0
  {
    if a < 0 {
      MulAtLeast(-a, d);
      assert a * d == -((-a) * d);
    }
  }

  /** A number below f * d has a quotient below f. */
  lemma QuotientBelow(r: nat, d: nat, f: int)
    requires d >= 1 && r < f * d
    ensures r / d < f
  {
    var q := r / d;
    DivModOfDigit(d, q, r % d);
    assert (f - q) * d == f * d - q * d;
    MulNonPositive(f - q, d);
  }

  /** A number is its remainder plus its quotient's multiple. */
  lemma DivModSplit(r: nat, d: nat)
    requires d >= 1
    ensures 0 <= r % d < d && r == r % d + d * (r / d)
  {
  }

  /** Division and remainder undo `q * d + m` for a digit `m` below `d`. */
  lemma DivModOfDigit(d: nat, q: int, m: int)
    requires d >= 1 && 0 <= q && 0 <= m < d
    ensures (q * d + m) / d == q && (q * d + m) % d == m
  {
    var n := q * d + m;
    var q', m' := n / d, n % d;
    assert q' * d + m' == q * d + m;
    if q' < q {
      assert (q - q') * d == q * d - q' * d;
      MulAtLeast(q - q', d);
    } else if q' > q {
      assert (q' - q) * d == q' * d - q * d;
      MulAtLeast(q' - q, d);
    }
  }
}
