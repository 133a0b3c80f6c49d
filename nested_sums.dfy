/** Parameter bookkeeping for the harmonic polylogarithm `H(m; x)` and the
    multiple polylogarithm `Li(m; x)` of ginac/inifcns_nstdsums.cpp.
    Parameters are integers.  In the compact notation an entry `e > 1`
    stands for `e - 1` zeros followed by `1`, and `e < -1` for `|e| - 1`
    zeros followed by `-1`; the expanded notation uses the letters -1, 0
    and 1 only. */
module NestedSums {

  // ------------------------------------------------------------ helpers

  function Zeros(n: nat): (z: seq<int>)
    ensures |z| == n
  {
    seq(n, _ => 0)
  }

  function Abs(x: int): nat
  {
    if x < 0 then -x else x
  }

  function Sgn(x: int): int
  {
    if x > 0 then 1 else if x < 0 then -1 else 0
  }

  function Product(s: seq<int>): int
  {
    if s == [] then 1 else s[0] * Product(s[1..])
  }

  lemma {:induction false} ProductConcat(a: seq<int>, b: seq<int>)
    ensures Product(a + b) == Product(a) * Product(b)
  {
    if a != [] {
      assert (a + b)[1..] == a[1..] + b;
      ProductConcat(a[1..], b);
      assert (a + b)[0] == a[0];
      assert Product(a + b) == a[0] * Product(a[1..] + b);
      assert a[0] * (Product(a[1..]) * Product(b)) == (a[0] * Product(a[1..])) * Product(b);
    } else {
      assert a + b == b;
    }
  }

  /** Every entry is one of the letters -1, 0 and 1. */
  predicate Letters(e: seq<int>)
  {
    forall i :: 0 <= i < |e| ==> -1 <= e[i] <= 1
  }

  predicate ZeroFree(l: seq<int>)
  {
    forall i :: 0 <= i < |l| ==> l[i] != 0
  }

  // ------------------------------------------------------------ expansion

  /** The expanded form of one compact entry. */
  function ExpandEntry(e: int): (r: seq<int>)
    ensures |r| >= 1
  {
    if e > 1 then Zeros(e - 1) + [1]
    else if e < -1 then Zeros(-e - 1) + [-1]
    else [e]
  }

  /** The expanded entry is `max(1, |e|) - 1` zeros followed by the sign of
      `e`. */
  lemma EntryShape(e: int)
    ensures var r := ExpandEntry(e);
            r[|r| - 1] == Sgn(e) && (forall i :: 0 <= i < |r| - 1 ==> r[i] == 0)
            && |r| == (if Abs(e) > 1 then Abs(e) else 1) && Letters(r)
  {
  }

  /** The expanded form of the first `n` entries of a parameter list. */
  function ExpandTo(l: seq<int>, n: nat): seq<int>
    requires n <= |l|
  {
    if n == 0 then [] else ExpandTo(l, n - 1) + ExpandEntry(l[n - 1])
  }

  function Expand(l: seq<int>): seq<int>
  {
    ExpandTo(l, |l|)
  }

  /** The concatenation of `f` over the first `n` entries of `l`: the shape
      of the expansion, with the expansion of one entry left abstract. */
  function FlatTo(f: int -> seq<int>, l: seq<int>, n: nat): seq<int>
    requires n <= |l|
  {
    if n == 0 then [] else FlatTo(f, l, n - 1) + f(l[n - 1])
  }

  lemma ConcatAssoc(a: seq<int>, b: seq<int>, c: seq<int>)
    ensures (a + b) + c == a + (b + c)
  {
  }

  /** A concatenation over a list is the first piece followed by the
      concatenation over the rest. */
  lemma {:induction false} FlatToCons(f: int -> seq<int>, l: seq<int>, n: nat)
    requires n + 1 <= |l|
    ensures FlatTo(f, l, n + 1) == f(l[0]) + FlatTo(f, l[1..], n)
  {
    if n > 0 {
      FlatToCons(f, l, n - 1);
      assert l[1..][n - 1] == l[n];
      ConcatAssoc(f(l[0]), FlatTo(f, l[1..], n - 1), f(l[n]));
    }
  }

  /** The expansion is the concatenation of the expanded entries. */
  lemma {:induction false} ExpandIsFlat(l: seq<int>, n: nat)
    requires n <= |l|
    ensures ExpandTo(l, n) == FlatTo(ExpandEntry, l, n)
  {
    if n > 0 {
      ExpandIsFlat(l, n - 1);
    }
  }

  /** The weight of the first `n` entries: `Σ max(1, |e|)`. */
  function WeightTo(l: seq<int>, n: nat): nat
    requires n <= |l|
  {
    if n == 0 then 0 else WeightTo(l, n - 1) + (if Abs(l[n - 1]) > 1 then Abs(l[n - 1]) else 1)
  }

  function Weight(l: seq<int>): nat
  {
    WeightTo(l, |l|)
  }

  /** The expanded list uses only the letters -1, 0 and 1, and its length
      is the weight. */
  lemma {:induction false} ExpandLetters(l: seq<int>, n: nat)
    requires n <= |l|
    ensures Letters(ExpandTo(l, n)) && |ExpandTo(l, n)| == WeightTo(l, n)
  {
    if n > 0 {
      ExpandLetters(l, n - 1);
      EntryShape(l[n - 1]);
      var a, b := ExpandTo(l, n - 1), ExpandEntry(l[n - 1]);
      assert ExpandTo(l, n) == a + b;
      forall i | 0 <= i < |a + b|
        ensures -1 <= (a + b)[i] <= 1
      {
        if i < |a| {
          assert (a + b)[i] == a[i];
        } else {
          assert (a + b)[i] == b[i - |a|];
        }
      }
    }
  }

  /** Expanding a list already in expanded form changes nothing. */
  lemma {:induction false} ExpandLettersUnchanged(e: seq<int>, n: nat)
    requires Letters(e) && n <= |e|
    ensures ExpandTo(e, n) == e[..n]
  {
    if n > 0 {
      ExpandLettersUnchanged(e, n - 1);
      assert e[..n] == e[..n - 1] + [e[n - 1]];
    }
  }

  /** One more zero after a run of zeros. */
  lemma AppendZero(done: seq<int>, n: nat)
    ensures (done + Zeros(n)) + [0] == done + Zeros(n + 1)
  {
    assert Zeros(n + 1) == Zeros(n) + [0];
    assert (done + Zeros(n)) + [0] == done + (Zeros(n) + [0]);
  }

  /** The letter that ends a run of zeros. */
  lemma AppendLetter(done: seq<int>, n: nat, x: int)
    ensures (done + Zeros(n)) + [x] == done + (Zeros(n) + [x])
  {
  }

  /** The expansion loop of `convert_parameter_H_to_Li` and of `H_evalf`. */
  method ExpandParameters(l: seq<int>) returns (mexp: seq<int>)
    ensures mexp == Expand(l)
  {
    mexp := [];
    for i := 0 to |l|
      invariant mexp == ExpandTo(l, i)
    {
      ghost var done := mexp;
      var e := l[i];
      if e > 1 {
        assert mexp == done + Zeros(0);
        var count := e - 1;
        while count > 0
          invariant 0 <= count <= e - 1
          invariant mexp == done + Zeros(e - 1 - count)
        {
          AppendZero(done, e - 1 - count);
          mexp := mexp + [0];
          count := count - 1;
        }
        AppendLetter(done, e - 1, 1);
        mexp := mexp + [1];
      } else if e < -1 {
        assert mexp == done + Zeros(0);
        var count := e + 1;
        while count < 0
          invariant e + 1 <= count <= 0
          invariant mexp == done + Zeros(count - e - 1)
        {
          AppendZero(done, count - e - 1);
          mexp := mexp + [0];
          count := count + 1;
        }
        AppendLetter(done, -e - 1, -1);
        mexp := mexp + [-1];
      } else {
        mexp := mexp + [e];
      }
    }
  }

  // ------------------------------------------------------------ compaction

  /** The nonzero entries among the first `n`, in order. */
  function Nonzeros(e: seq<int>, n: nat): seq<int>
    requires n <= |e|
  {
    if n == 0 then []
    else Nonzeros(e, n - 1) + (if e[n - 1] != 0 then [e[n - 1]] else [])
  }

  /** The number of zeros at the end of the first `n` entries. */
  function TrailingZeros(e: seq<int>, n: nat): nat
    requires n <= |e|
  {
    if n == 0 || e[n - 1] != 0 then 0 else TrailingZeros(e, n - 1) + 1
  }

  /** The last nonzero entry among the first `n`, 1 when there is none. */
  function LastSign(e: seq<int>, n: nat): int
    requires n <= |e|
  {
    if n == 0 then 1 else if e[n - 1] != 0 then e[n - 1] else LastSign(e, n - 1)
  }

  /** The `Li` indices the compaction loop builds from the first `n`
      entries of an expanded list: each nonzero `d` appends `d` extended by
      the zeros directly before it, times the previous nonzero. */
  function Compacted(e: seq<int>, n: nat): seq<int>
    requires n <= |e|
  {
    if n == 0 then []
    else
      var d := e[n - 1];
      if d == 0 then Compacted(e, n - 1)
      else Compacted(e, n - 1) + [(if d > 0 then d + TrailingZeros(e, n - 1) else d - TrailingZeros(e, n - 1)) * LastSign(e, n - 1)]
  }

  /** Some prefix of the first `n` entries has nonzeros with a negative
      product. */
  predicate NegativeSoFar(e: seq<int>, n: nat)
    requires n <= |e|
  {
    n > 0 && (NegativeSoFar(e, n - 1) || Product(Nonzeros(e, n)) < 0)
  }

  /** The entries with their signs dropped. */
  function Magnitudes(c: seq<int>): (r: seq<int>)
    ensures |r| == |c| && forall k :: 0 <= k < |c| ==> r[k] == Abs(c[k])
  {
    seq(|c|, k requires 0 <= k < |c| => Abs(c[k]))
  }

  /** -1 where an entry is negative, 1 elsewhere. */
  function SignsOf(c: seq<int>): (r: seq<int>)
    ensures |r| == |c| && forall k :: 0 <= k < |c| ==> r[k] == (if c[k] < 0 then -1 else 1)
  {
    seq(|c|, k requires 0 <= k < |c| => if c[k] < 0 then -1 else 1)
  }

  /** What one more entry does to the compaction state. */
  lemma CompactStep(e: seq<int>, i: nat)
    requires i < |e|
    ensures e[i] == 0 ==>
              Compacted(e, i + 1) == Compacted(e, i) && TrailingZeros(e, i + 1) == TrailingZeros(e, i) + 1
              && LastSign(e, i + 1) == LastSign(e, i) && Product(Nonzeros(e, i + 1)) == Product(Nonzeros(e, i))
              && NegativeSoFar(e, i + 1) == NegativeSoFar(e, i)
    ensures var d := e[i];
            d != 0 ==>
              Compacted(e, i + 1) == Compacted(e, i) + [(if d > 0 then d + TrailingZeros(e, i) else d - TrailingZeros(e, i)) * LastSign(e, i)]
              && TrailingZeros(e, i + 1) == 0 && LastSign(e, i + 1) == d
              && Product(Nonzeros(e, i + 1)) == Product(Nonzeros(e, i)) * d
              && NegativeSoFar(e, i + 1) == (NegativeSoFar(e, i) || Product(Nonzeros(e, i)) * d < 0)
  {
    var d := e[i];
    if d == 0 {
      assert Nonzeros(e, i + 1) == Nonzeros(e, i) + [];
      assert Nonzeros(e, i) + [] == Nonzeros(e, i);
    } else {
      ProductConcat(Nonzeros(e, i), [d]);
      assert [d][1..] == [];
      assert Product([d]) == d;
      assert Nonzeros(e, i + 1) == Nonzeros(e, i) + [d];
    }
  }

  /** `convert_parameter_H_to_Li`: expands `l`, compacts it into the `Li`
      indices `m`, and when some prefix of the letters has a negative
      product moves the signs of `m` into `s`.  `pf` is the product of the
      letters and the result says whether signs were moved. */
  method ConvertParameterHToLi(l: seq<int>) returns (negative: bool, m: seq<int>, s: seq<int>, pf: int)
    ensures var e := Expand(l); pf == Product(Nonzeros(e, |e|))
    ensures var e := Expand(l); negative == NegativeSoFar(e, |e|)
    ensures var e := Expand(l); negative ==> m == Magnitudes(Compacted(e, |e|)) && s == SignsOf(Compacted(e, |e|))
    ensures var e := Expand(l); !negative ==> m == Compacted(e, |e|) && s == []
  {
    var mexp := ExpandParameters(l);
    var signum := 1;
    pf := 1;
    negative := false;
    var acc := 1;
    m, s := [], [];
    for i := 0 to |mexp|
      invariant m == Compacted(mexp, i)
      invariant acc == TrailingZeros(mexp, i) + 1
      invariant signum == LastSign(mexp, i)
      invariant pf == Product(Nonzeros(mexp, i))
      invariant negative == NegativeSoFar(mexp, i)
    {
      var d := mexp[i];
      CompactStep(mexp, i);
      if d == 0 {
        acc := acc + 1;
        continue;
      }
      if d > 0 {
        m := m + [(d + acc - 1) * signum];
      } else {
        m := m + [(d - acc + 1) * signum];
      }
      acc := 1;
      signum := d;
      pf := pf * d;
      if pf < 0 {
        negative := true;
      }
    }
    if negative {
      var c := m;
      for i := 0 to |m|
        invariant |m| == |c| && |s| == i
        invariant forall k :: 0 <= k < i ==> m[k] == Abs(c[k]) && s[k] == (if c[k] < 0 then -1 else 1)
        invariant forall k :: i <= k < |m| ==> m[k] == c[k]
      {
        if m[i] < 0 {
          m := m[i := -m[i]];
          s := s + [-1];
        } else {
          s := s + [1];
        }
      }
    }
  }

  // ------------------------------------------------------------ meaning of the compaction

  lemma {:induction false} CompactedLength(e: seq<int>, n: nat)
    requires n <= |e|
    ensures |Compacted(e, n)| == |Nonzeros(e, n)|
  {
    if n > 0 {
      CompactedLength(e, n - 1);
    }
  }

  /** On letters, no prefix product is negative exactly when every index
      the compaction produces is positive; the letters seen are then all
      1. */
  lemma {:induction false} NonNegativeIffPositive(e: seq<int>, n: nat)
    requires Letters(e) && n <= |e|
    ensures !NegativeSoFar(e, n) <==> forall k :: 0 <= k < |Compacted(e, n)| ==> Compacted(e, n)[k] > 0
    ensures !NegativeSoFar(e, n) ==> LastSign(e, n) == 1 && Product(Nonzeros(e, n)) == 1
  {
    if n > 0 {
      NonNegativeIffPositive(e, n - 1);
      var d := e[n - 1];
      if d == 0 {
        assert Nonzeros(e, n) == Nonzeros(e, n - 1) + [];
        assert Nonzeros(e, n - 1) + [] == Nonzeros(e, n - 1);
        assert Compacted(e, n) == Compacted(e, n - 1);
      } else {
        assert Nonzeros(e, n) == Nonzeros(e, n - 1) + [d];
        ProductConcat(Nonzeros(e, n - 1), [d]);
        assert [d][1..] == [];
        assert Product([d]) == d;
        var c := Compacted(e, n - 1);
        var t := if d > 0 then d + TrailingZeros(e, n - 1) else d - TrailingZeros(e, n - 1);
        var entry := t * LastSign(e, n - 1);
        assert Compacted(e, n) == c + [entry];
        if !NegativeSoFar(e, n - 1) {
          assert Product(Nonzeros(e, n)) == d;
          assert entry == t;
          if d > 0 {
            forall k | 0 <= k < |c + [entry]|
              ensures (c + [entry])[k] > 0
            {
              if k < |c| {
                assert (c + [entry])[k] == c[k];
              }
            }
          } else {
            assert (c + [entry])[|c|] == entry;
          }
        } else {
          var k :| 0 <= k < |c| && c[k] <= 0;
          assert (c + [entry])[k] == c[k];
        }
      }
    }
  }

  /** The `Li` indices a zero-free compact list `l` turns into: each
      entry, negated when the entry before it is negative. */
  function LiIndices(l: seq<int>, n: nat): (r: seq<int>)
    requires n <= |l|
    ensures |r| == n
  {
    seq(n, k requires 0 <= k < n => if k > 0 && l[k - 1] < 0 then -l[k] else l[k])
  }

  function Signs(l: seq<int>, n: nat): (r: seq<int>)
    requires n <= |l|
    ensures |r| == n
  {
    seq(n, k requires 0 <= k < n => Sgn(l[k]))
  }

  lemma PrefixExtend(a: seq<int>, b: seq<int>, c: seq<int>)
    requires |a| <= |b| && b[..|a|] == a
    ensures |a| <= |b + c| && (b + c)[..|a|] == a
  {
    assert (b + c)[..|a|] == b[..|a|];
  }

  /** An expansion of fewer entries is a prefix of the expansion of more. */
  lemma {:induction false} ExpandPrefix(l: seq<int>, n: nat, n2: nat)
    requires n <= n2 <= |l|
    ensures |ExpandTo(l, n)| <= |ExpandTo(l, n2)| && ExpandTo(l, n2)[..|ExpandTo(l, n)|] == ExpandTo(l, n)
    decreases n2 - n
  {
    if n < n2 {
      ExpandPrefix(l, n, n2 - 1);
      PrefixExtend(ExpandTo(l, n), ExpandTo(l, n2 - 1), ExpandEntry(l[n2 - 1]));
    } else {
      assert ExpandTo(l, n)[..|ExpandTo(l, n)|] == ExpandTo(l, n);
    }
  }

  lemma PieceAt(e: seq<int>, a: seq<int>, r: seq<int>)
    requires |a| + |r| <= |e| && e[..|a| + |r|] == a + r
    ensures forall i :: |a| <= i < |a| + |r| ==> e[i] == r[i - |a|]
  {
    forall i | |a| <= i < |a| + |r|
      ensures e[i] == r[i - |a|]
    {
      assert e[i] == e[..|a| + |r|][i];
    }
  }

  /** Entry `k` of `l` is spelled out in `e` at its place in the
      expansion: a run of zeros ended by the entry's sign. */
  predicate EntrySpelled(l: seq<int>, e: seq<int>, k: nat)
    requires k < |l|
  {
    WeightTo(l, k + 1) <= |e|
    && (forall i :: WeightTo(l, k) <= i < WeightTo(l, k + 1) - 1 ==> e[i] == 0)
    && e[WeightTo(l, k + 1) - 1] == Sgn(l[k])
  }

  predicate Spelled(l: seq<int>, e: seq<int>)
  {
    forall k :: 0 <= k < |l| ==> EntrySpelled(l, e, k)
  }

  /** Where entry `k` of `l` sits in the expansion. */
  lemma EntryAt(l: seq<int>, k: nat)
    requires k < |l|
    ensures EntrySpelled(l, Expand(l), k)
  {
    var a, r := ExpandTo(l, k), ExpandEntry(l[k]);
    EntryShape(l[k]);
    ExpandPrefix(l, k + 1, |l|);
    ExpandLetters(l, k);
    ExpandLetters(l, k + 1);
    assert ExpandTo(l, k + 1) == a + r;
    PieceAt(Expand(l), a, r);
  }

  /** Passing over a run of zeros only lengthens the trailing run. */
  lemma {:induction false} ZeroRun(e: seq<int>, p: nat, j: nat)
    requires p + j <= |e| && forall i :: p <= i < p + j ==> e[i] == 0
    ensures Compacted(e, p + j) == Compacted(e, p) && Nonzeros(e, p + j) == Nonzeros(e, p)
    ensures LastSign(e, p + j) == LastSign(e, p) && TrailingZeros(e, p + j) == TrailingZeros(e, p) + j
  {
    if j > 0 {
      ZeroRun(e, p, j - 1);
      assert Nonzeros(e, p + j) == Nonzeros(e, p + j - 1) + [];
      assert Nonzeros(e, p + j - 1) + [] == Nonzeros(e, p + j - 1);
    }
  }

  /** Passing over a run of zeros ended by a nonzero `d` appends one index
      to the compaction: `d` extended by the length of the run, times the
      previous nonzero. */
  lemma CompactRun(e: seq<int>, p: nat, z: nat)
    requires p + z < |e| && (forall i :: p <= i < p + z ==> e[i] == 0) && e[p + z] != 0
    requires TrailingZeros(e, p) == 0
    ensures var d := e[p + z];
            Compacted(e, p + z + 1) == Compacted(e, p) + [(if d > 0 then d + z else d - z) * LastSign(e, p)]
            && Nonzeros(e, p + z + 1) == Nonzeros(e, p) + [d]
            && TrailingZeros(e, p + z + 1) == 0 && LastSign(e, p + z + 1) == d
  {
    ZeroRun(e, p, z);
  }

  /** The index a run of `z` zeros ended by the sign of `x` contributes,
      when `z + 1` is the magnitude of `x` and `w` the previous sign. */
  lemma RunIndex(x: int, z: nat, w: int)
    requires x != 0 && z + 1 == (if Abs(x) > 1 then Abs(x) else 1) && (w == 1 || w == -1)
    ensures (if Sgn(x) > 0 then Sgn(x) + z else Sgn(x) - z) * w == (if w < 0 then -x else x)
  {
  }

  lemma IndicesSnoc(l: seq<int>, n: nat)
    requires 0 < n <= |l|
    ensures LiIndices(l, n) == LiIndices(l, n - 1) + [if n > 1 && l[n - 2] < 0 then -l[n - 1] else l[n - 1]]
    ensures Signs(l, n) == Signs(l, n - 1) + [Sgn(l[n - 1])]
  {
    assert LiIndices(l, n)[..n - 1] == LiIndices(l, n - 1);
    assert Signs(l, n)[..n - 1] == Signs(l, n - 1);
  }

  /** The expansion spells out every entry. */
  lemma ExpandSpelled(l: seq<int>)
    ensures Spelled(l, Expand(l)) && |Expand(l)| == Weight(l)
  {
    ExpandLetters(l, |l|);
    forall k | 0 <= k < |l|
      ensures EntrySpelled(l, Expand(l), k)
    {
      EntryAt(l, k);
    }
  }

  /** Compacting letters that spell out a zero-free list: after the first
      `n` entries the indices are `LiIndices(l, n)` and the letters seen are
      the signs of those entries. */
  lemma {:induction false} CompactSpelled(l: seq<int>, e: seq<int>, n: nat)
    requires ZeroFree(l) && Spelled(l, e) && n <= |l|
    ensures WeightTo(l, n) <= |e|
    ensures var p := WeightTo(l, n);
            Compacted(e, p) == LiIndices(l, n) && Nonzeros(e, p) == Signs(l, n) && TrailingZeros(e, p) == 0
            && LastSign(e, p) == (if n == 0 then 1 else Sgn(l[n - 1]))
  {
    if n > 0 {
      CompactSpelled(l, e, n - 1);
      assert EntrySpelled(l, e, n - 1);
      var p, q := WeightTo(l, n - 1), WeightTo(l, n);
      CompactRun(e, p, q - p - 1);
      RunIndex(l[n - 1], q - p - 1, if n - 1 == 0 then 1 else Sgn(l[n - 2]));
      IndicesSnoc(l, n);
    }
  }

  /** For a zero-free list the compaction undoes the expansion up to the
      sign bookkeeping: the indices are the entries, each negated when the
      entry before it is negative, and the letters seen are the signs of
      the entries. */
  lemma CompactExpand(l: seq<int>)
    requires ZeroFree(l)
    ensures var e := Expand(l);
            Compacted(e, |e|) == LiIndices(l, |l|) && Nonzeros(e, |e|) == Signs(l, |l|)
  {
    ExpandSpelled(l);
    CompactSpelled(l, Expand(l), |l|);
  }

  // ------------------------------------------------------------ Li to H

  /** `Π_{k=1..i} x[k]`. */
  function RunningSign(x: seq<int>, i: nat): int
    requires i < |x|
  {
    if i == 0 then 1 else RunningSign(x, i - 1) * x[i]
  }

  /** The product of the running signs `Π_{i=1..n-1} RunningSign(x, i)`. */
  function RunningSignProduct(x: seq<int>, n: nat): int
    requires n <= |x|
  {
    if n <= 1 then 1 else RunningSignProduct(x, n - 1) * RunningSign(x, n - 1)
  }

  /** The `H` parameters for the `Li` indices `m` and signs `x`: entry `i`
      of `m` times the running sign of `x` up to `i`. */
  function LiToH(m: seq<int>, x: seq<int>): (r: seq<int>)
    requires 1 <= |x| <= |m|
    ensures |r| == |x| && r[0] == m[0]
    ensures forall i :: 0 <= i < |x| ==> r[i] == m[i] * RunningSign(x, i)
  {
    seq(|x|, i requires 0 <= i < |x| => m[i] * RunningSign(x, i))
  }

  /** `convert_parameter_Li_to_H`. */
  method ConvertParameterLiToH(m: seq<int>, x: seq<int>) returns (res: seq<int>, pf: int)
    requires 1 <= |x| <= |m|
    ensures res == LiToH(m, x) && pf == RunningSignProduct(x, |x|)
  {
    var signum := 1;
    pf := 1;
    res := [m[0]];
    var i := 1;
    while i < |x|
      invariant 1 <= i <= |x|
      invariant signum == RunningSign(x, i - 1) && pf == RunningSignProduct(x, i)
      invariant |res| == i && forall k :: 0 <= k < i ==> res[k] == m[k] * RunningSign(x, k)
    {
      signum := signum * x[i];
      pf := pf * signum;
      res := res + [m[i] * signum];
      i := i + 1;
    }
  }

  lemma SignedMagnitude(x: int, w: int)
    requires w == 1 || w == -1
    ensures Abs(x) * (Sgn(x) * w) == x * w
  {
    if w == 1 {
      assert Abs(x) * Sgn(x) == x;
    } else {
      assert Abs(x) * (Sgn(x) * w) == -(Abs(x) * Sgn(x));
    }
  }

  lemma SignsCancel(u: int, v: int, w: int)
    requires (u == 1 || u == -1) && (v == 1 || v == -1) && (w == 1 || w == -1)
    ensures (v * w) * (u * v) == u * w
  {
  }

  /** The running sign of the signs moved out of `LiIndices(l, _)` is the
      sign of the current entry times the sign of the first. */
  lemma {:induction false} RunningSignTelescopes(l: seq<int>, i: nat)
    requires ZeroFree(l) && i < |l|
    ensures RunningSign(SignsOf(LiIndices(l, |l|)), i) == Sgn(l[i]) * Sgn(l[0])
  {
    var x := SignsOf(LiIndices(l, |l|));
    if i > 0 {
      RunningSignTelescopes(l, i - 1);
      assert x[i] == Sgn(l[i]) * Sgn(l[i - 1]);
      SignsCancel(Sgn(l[i]), Sgn(l[i - 1]), Sgn(l[0]));
    }
  }

  /** Converting a zero-free `H` parameter list to `Li` indices and signs
      and back gives the list again, up to the sign of its first entry. */
  lemma HToLiToH(l: seq<int>)
    requires ZeroFree(l) && |l| >= 1
    ensures var c := LiIndices(l, |l|);
            LiToH(Magnitudes(c), SignsOf(c)) == seq(|l|, i requires 0 <= i < |l| => l[i] * Sgn(l[0]))
  {
    var c := LiIndices(l, |l|);
    forall i | 0 <= i < |l|
      ensures LiToH(Magnitudes(c), SignsOf(c))[i] == l[i] * Sgn(l[0])
    {
      RunningSignTelescopes(l, i);
      SignedMagnitude(l[i], Sgn(l[0]));
    }
  }
}
