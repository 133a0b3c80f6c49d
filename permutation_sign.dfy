/** The sign of a permutation, as `permutation_sign` in ginac/matrix.cpp
    computes it with an exchange sort on a copy of its argument. */
module Permutations {

  // ------------------------------------------------------------ repeated values

  /** `s` has a value at two positions. */
  predicate HasRepeat(s: seq<int>)
  {
    exists i, j :: 0 <= i < j < |s| && s[i] == s[j]
  }

  predicate StrictlyIncreasing(s: seq<int>)
  {
    forall i, j :: 0 <= i < j < |s| ==> s[i] < s[j]
  }

  /** A value found at two positions occurs at least twice. */
  lemma TwoPositions(s: seq<int>, i: nat, j: nat)
    requires i < j < |s|
    ensures s[i] == s[j] ==> multiset(s)[s[i]] >= 2
  {
    assert s == s[..i] + [s[i]] + s[i + 1..j] + [s[j]] + s[j + 1..];
  }

  /** In a strictly increasing sequence every value occurs at most once. */
  lemma {:induction false} IncreasingCountsOnce(t: seq<int>, v: int)
    requires StrictlyIncreasing(t)
    ensures multiset(t)[v] <= 1
  {
    if |t| > 0 {
      assert t == [t[0]] + t[1..];
      assert StrictlyIncreasing(t[1..]);
      IncreasingCountsOnce(t[1..], v);
      assert t[0] == v ==> v !in t[1..];
    }
  }

  /** A value occurring twice is found at two positions. */
  lemma {:induction false} TwiceIsRepeat(s: seq<int>, v: int)
    requires multiset(s)[v] >= 2
    ensures HasRepeat(s)
  {
    assert s == [s[0]] + s[1..];
    if s[0] == v {
      assert v in multiset(s[1..]);
      var j :| 0 <= j < |s[1..]| && s[1..][j] == v;
      assert s[0] == s[j + 1];
    } else {
      TwiceIsRepeat(s[1..], v);
      var i, j :| 0 <= i < j < |s[1..]| && s[1..][i] == s[1..][j];
      assert s[i + 1] == s[j + 1];
    }
  }

  /** A sequence with the elements of a strictly increasing one has no
      repeated value. */
  lemma NoRepeatInPermutationOfIncreasing(s: seq<int>, t: seq<int>)
    requires multiset(s) == multiset(t) && StrictlyIncreasing(t)
    ensures !HasRepeat(s)
  {
    forall i, j | 0 <= i < j < |s|
      ensures s[i] != s[j]
    {
      TwoPositions(s, i, j);
      IncreasingCountsOnce(t, s[i]);
    }
  }

  /** A repetition survives any rearrangement. */
  lemma RepeatInPermutation(s: seq<int>, t: seq<int>, i: nat, j: nat)
    requires multiset(s) == multiset(t) && i < j < |t| && t[i] == t[j]
    ensures HasRepeat(s)
  {
    TwoPositions(t, i, j);
    TwiceIsRepeat(s, t[i]);
  }

  // ------------------------------------------------------------ inversions

  /** The number of positions `q` in `[lo, hi)` with `v > s[q]`. */
  function Below(v: int, s: seq<int>, lo: nat, hi: nat): nat
    requires lo <= hi <= |s|
    decreases hi - lo
  {
    if lo == hi then 0 else (if v > s[lo] then 1 else 0) + Below(v, s, lo + 1, hi)
  }

  /** The number of inversions `p < q` with `s[p] > s[q]` among `p >= a`. */
  function InversionsFrom(s: seq<int>, a: nat): nat
    decreases |s| - a
  {
    if a >= |s| then 0 else Below(s[a], s, a + 1, |s|) + InversionsFrom(s, a + 1)
  }

  function Inversions(s: seq<int>): nat
  {
    InversionsFrom(s, 0)
  }

  /** `1` for an even number, `-1` for an odd one. */
  function Parity(n: nat): (r: int)
    ensures r == 1 || r == -1
  {
    if n % 2 == 0 then 1 else -1
  }

  /** The sign of the permutation that sorts `s`: 0 when `s` has fewer than
      two elements or a repeated value, otherwise +1 or -1 as the number of
      inversions is even or odd. */
  function PermutationSignOf(s: seq<int>): int
  {
    if |s| < 2 || HasRepeat(s) then 0 else Parity(Inversions(s))
  }

  /** `s` with the elements at `i` and `j` exchanged. */
  function Swap(s: seq<int>, i: nat, j: nat): (t: seq<int>)
    requires i < |s| && j < |s|
    ensures |t| == |s| && multiset(t) == multiset(s)
  {
    s[i := s[j]][j := s[i]]
  }

  lemma {:induction false} BelowSplit(v: int, s: seq<int>, lo: nat, mid: nat, hi: nat)
    requires lo <= mid <= hi <= |s|
    ensures Below(v, s, lo, hi) == Below(v, s, lo, mid) + Below(v, s, mid, hi)
    decreases mid - lo
  {
    if lo < mid {
      BelowSplit(v, s, lo + 1, mid, hi);
    }
  }

  lemma {:induction false} BelowSame(v: int, s: seq<int>, t: seq<int>, lo: nat, hi: nat)
    requires lo <= hi <= |s| == |t|
    requires forall q :: lo <= q < hi ==> s[q] == t[q]
    ensures Below(v, s, lo, hi) == Below(v, t, lo, hi)
    decreases hi - lo
  {
    if lo < hi {
      BelowSame(v, s, t, lo + 1, hi);
    }
  }

  lemma {:induction false} BelowNone(v: int, s: seq<int>, lo: nat, hi: nat)
    requires lo <= hi <= |s|
    requires forall q :: lo <= q < hi ==> v < s[q]
    ensures Below(v, s, lo, hi) == 0
    decreases hi - lo
  {
    if lo < hi {
      BelowNone(v, s, lo + 1, hi);
    }
  }

  /** The count over a range holding both exchanged positions is unchanged
      by the exchange. */
  lemma BelowSwapBoth(v: int, s: seq<int>, i: nat, j: nat, lo: nat, hi: nat)
    requires lo <= i < j < hi <= |s|
    ensures Below(v, Swap(s, i, j), lo, hi) == Below(v, s, lo, hi)
  {
    var t := Swap(s, i, j);
    BelowAround(v, s, lo, i, j, hi);
    BelowAround(v, t, lo, i, j, hi);
    BelowSame(v, s, t, lo, i);
    BelowSame(v, s, t, i + 1, j);
    BelowSame(v, s, t, j + 1, hi);
    BelowOne(v, s, i);
    BelowOne(v, s, j);
    BelowOne(v, t, i);
    BelowOne(v, t, j);
  }

  /** A count split around two positions `i < j` of the range. */
  lemma BelowAround(v: int, s: seq<int>, lo: nat, i: nat, j: nat, hi: nat)
    requires lo <= i < j < hi <= |s|
    ensures Below(v, s, lo, hi)
            == Below(v, s, lo, i) + Below(v, s, i, i + 1) + Below(v, s, i + 1, j)
               + Below(v, s, j, j + 1) + Below(v, s, j + 1, hi)
  {
    BelowSplit(v, s, lo, i, hi);
    BelowSplit(v, s, i, i + 1, hi);
    BelowSplit(v, s, i + 1, j, hi);
    BelowSplit(v, s, j, j + 1, hi);
  }

  lemma BelowOne(v: int, s: seq<int>, i: nat)
    requires i < |s|
    ensures Below(v, s, i, i + 1) == if v > s[i] then 1 else 0
  {
  }

  /** The count over a range holding only the second exchanged position is
      unchanged when `v` is above both exchanged values. */
  lemma BelowSwapSecond(v: int, s: seq<int>, i: nat, j: nat, lo: nat, hi: nat)
    requires i < lo <= j < hi <= |s| && v > s[i] && v > s[j]
    ensures Below(v, Swap(s, i, j), lo, hi) == Below(v, s, lo, hi)
  {
    var t := Swap(s, i, j);
    BelowSplit(v, s, lo, j, hi);
    BelowSplit(v, s, j, j + 1, hi);
    BelowSplit(v, t, lo, j, hi);
    BelowSplit(v, t, j, j + 1, hi);
    BelowSame(v, s, t, lo, j);
    BelowSame(v, s, t, j + 1, hi);
  }

  /** The conditions of an exchange in `PermutationSign`: the element at `i`
      is above the one at `j` and below everything in between. */
  predicate SortingSwap(s: seq<int>, i: nat, j: nat)
  {
    i < j < |s| && s[i] > s[j] && forall q :: i < q < j ==> s[i] < s[q]
  }

  /** The inversions contributed by position `p`. */
  function Term(s: seq<int>, p: nat): nat
    requires p < |s|
  {
    Below(s[p], s, p + 1, |s|)
  }

  /** Only the terms of the two exchanged positions change, and together
      they lose exactly one inversion. */
  lemma SwapTerms(s: seq<int>, i: nat, j: nat, p: nat)
    requires SortingSwap(s, i, j) && p < |s|
    ensures p != i && p != j ==> Term(Swap(s, i, j), p) == Term(s, p)
    ensures Term(Swap(s, i, j), i) + Term(Swap(s, i, j), j) + 1 == Term(s, i) + Term(s, j)
  {
    if p != i && p != j {
      TermElsewhere(s, i, j, p);
    }
    TermAtFirst(s, i, j);
    TermAtSecond(s, i, j);
  }

  lemma TermElsewhere(s: seq<int>, i: nat, j: nat, p: nat)
    requires SortingSwap(s, i, j) && p < |s| && p != i && p != j
    ensures Term(Swap(s, i, j), p) == Term(s, p)
  {
    var t := Swap(s, i, j);
    var n := |s|;
    if p < i {
      BelowSwapBoth(s[p], s, i, j, p + 1, n);
    } else if i < p < j {
      BelowSwapSecond(s[p], s, i, j, p + 1, n);
    } else {
      BelowSame(s[p], s, t, p + 1, n);
    }
  }

  /** The smaller element moved to `i` is below nothing up to `j`, so its
      term is the old term of `j`. */
  lemma TermAtFirst(s: seq<int>, i: nat, j: nat)
    requires SortingSwap(s, i, j)
    ensures Term(Swap(s, i, j), i) == Term(s, j)
  {
    var t := Swap(s, i, j);
    var n := |s|;
    BelowSplit(t[i], t, i + 1, j, n);
    BelowSplit(t[i], t, j, j + 1, n);
    BelowNone(t[i], t, i + 1, j);
    BelowOne(t[i], t, j);
    BelowSame(t[i], s, t, j + 1, n);
  }

  /** The larger element moved to `j` loses the inversion with the smaller
      one and keeps those with the untouched tail. */
  lemma TermAtSecond(s: seq<int>, i: nat, j: nat)
    requires SortingSwap(s, i, j)
    ensures Term(Swap(s, i, j), j) + 1 == Term(s, i)
  {
    var t := Swap(s, i, j);
    var n := |s|;
    BelowSplit(s[i], s, i + 1, j, n);
    BelowSplit(s[i], s, j, j + 1, n);
    BelowNone(s[i], s, i + 1, j);
    BelowOne(s[i], s, j);
    BelowSame(t[j], s, t, j + 1, n);
  }

  lemma {:induction false} SwapInversionsFrom(s: seq<int>, i: nat, j: nat, a: nat)
    requires SortingSwap(s, i, j)
    ensures j < a ==> InversionsFrom(Swap(s, i, j), a) == InversionsFrom(s, a)
    ensures i < a <= j ==> InversionsFrom(Swap(s, i, j), a) - Term(Swap(s, i, j), j) == InversionsFrom(s, a) - Term(s, j)
    ensures a <= i ==> InversionsFrom(Swap(s, i, j), a) + 1 == InversionsFrom(s, a)
    decreases |s| - a
  {
    if a < |s| {
      SwapInversionsFrom(s, i, j, a + 1);
      SwapTerms(s, i, j, a);
    }
  }

  /** Each exchange `PermutationSign` makes removes exactly one
      inversion. */
  lemma SwapInversions(s: seq<int>, i: nat, j: nat)
    requires SortingSwap(s, i, j)
    ensures Inversions(Swap(s, i, j)) + 1 == Inversions(s)
  {
    SwapInversionsFrom(s, i, j, 0);
  }

  /** A strictly increasing sequence has no inversions. */
  lemma {:induction false} IncreasingNoInversions(s: seq<int>, a: nat)
    requires StrictlyIncreasing(s)
    ensures InversionsFrom(s, a) == 0
    decreases |s| - a
  {
    if a < |s| {
      IncreasingNoInversions(s, a + 1);
      BelowNone(s[a], s, a + 1, |s|);
    }
  }

  // ------------------------------------------------------------ the algorithm

  /** The first `i` positions hold the `i` smallest elements in increasing
      order. */
  predicate Settled(a: seq<int>, i: nat)
  {
    forall p, q :: 0 <= p < i && p < q < |a| ==> a[p] < a[q]
  }

  /** The element at `i` is below those at `i + 1 .. j - 1`. */
  predicate LeastSoFar(a: seq<int>, i: nat, j: nat)
  {
    i < j <= |a| && forall q :: i < q < j ==> a[i] < a[q]
  }

  /** An exchange keeps the settled prefix and makes the element at `i`
      the least of `i .. j`. */
  lemma SwapKeepsOrder(a: seq<int>, i: nat, j: nat)
    requires Settled(a, i) && LeastSoFar(a, i, j) && i < j < |a| && a[i] > a[j]
    ensures Settled(Swap(a, i, j), i) && LeastSoFar(Swap(a, i, j), i, j + 1)
  {
  }

  /** Flipping the sign once per removed inversion keeps it consistent. */
  lemma ParityStep(n: nat)
    ensures Parity(n + 1) == -Parity(n)
  {
  }

  /** One exchange of `PermutationSign` keeps its loop invariants with one
      more exchange counted. */
  lemma SwapStep(s: seq<int>, a: seq<int>, i: nat, j: nat, swaps: nat)
    requires |a| == |s| && multiset(a) == multiset(s)
    requires Settled(a, i) && LeastSoFar(a, i, j) && j < |a| && a[i] > a[j]
    requires Inversions(a) + swaps == Inversions(s)
    ensures var b := Swap(a, i, j);
            |b| == |s| && multiset(b) == multiset(s)
            && Settled(b, i) && LeastSoFar(b, i, j + 1)
            && Inversions(b) + (swaps + 1) == Inversions(s) && Parity(swaps + 1) == -Parity(swaps)
  {
    SwapInversions(a, i, j);
    ParityStep(swaps);
    SwapKeepsOrder(a, i, j);
  }

  /** Sorts a copy of `s` by exchanges, flipping the sign at each one, and
      gives up with 0 on meeting two equal elements. */
  method PermutationSign(s: seq<int>) returns (sigma: int)
    ensures sigma == PermutationSignOf(s)
  {
    if |s| < 2 {
      return 0;
    }
    var a := s;
    sigma := 1;
    ghost var swaps: nat := 0;
    for i := 0 to |s| - 1
      invariant |a| == |s| && multiset(a) == multiset(s)
      invariant Settled(a, i)
      invariant Inversions(a) + swaps == Inversions(s) && sigma == Parity(swaps)
    {
      for j := i + 1 to |s|
        invariant |a| == |s| && multiset(a) == multiset(s)
        invariant Settled(a, i) && LeastSoFar(a, i, j)
        invariant Inversions(a) + swaps == Inversions(s) && sigma == Parity(swaps)
      {
        if a[i] == a[j] {
          RepeatInPermutation(s, a, i, j);
          return 0;
        }
        if a[i] > a[j] {
          SwapStep(s, a, i, j, swaps);
          a := Swap(a, i, j);
          sigma := -sigma;
          swaps := swaps + 1;
        }
      }
    }
    assert StrictlyIncreasing(a);
    NoRepeatInPermutationOfIncreasing(s, a);
    IncreasingNoInversions(a, 0);
  }
}
