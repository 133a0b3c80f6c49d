/** `halfcyclic_convolute` of ginac/inifcns_nstdsums.cpp: the first
    coefficients of the product of two power series, written into an
    output vector in place.  Coefficients are integers here. */
module Convolutions {

  /** Entry `i` of `s`, 0 outside its range (a series has no coefficient
      there). */
  function At(s: seq<int>, i: int): int
  {
    if 0 <= i < |s| then s[i] else 0
  }

  /** `Σ_{m<k} a[m] * b[n-m]`. */
  function ConvTo(a: seq<int>, b: seq<int>, n: int, k: nat): int
  {
    if k == 0 then 0 else ConvTo(a, b, n, k - 1) + At(a, k - 1) * At(b, n - (k - 1))
  }

  /** `Σ_{lo<=m<=n} a[m] * b[n-m]`, summed from the low end. */
  function ConvFrom(a: seq<int>, b: seq<int>, n: nat, lo: nat): int
    decreases n + 1 - lo
  {
    if lo > n then 0 else At(a, lo) * At(b, n - lo) + ConvFrom(a, b, n, lo + 1)
  }

  /** Coefficient `n` of the product of the series `a` and `b`. */
  function Convolution(a: seq<int>, b: seq<int>, n: nat): int
  {
    ConvTo(a, b, n, n + 1)
  }

  /** `halfcyclic_convolute`: `c[n]` becomes coefficient `n` of the product
      for every `n` below the length of `a`; the rest of `c` is left
      alone. */
  method HalfcyclicConvolute(a: array<int>, b: array<int>, c: array<int>)
    requires b.Length >= a.Length && c.Length >= a.Length && c != a && c != b
    modifies c
    ensures forall n :: 0 <= n < a.Length ==> c[n] == Convolution(a[..], b[..], n)
    ensures forall n :: a.Length <= n < c.Length ==> c[n] == old(c[n])
  {
    var size := a.Length;
    for n := 0 to size
      invariant forall k :: 0 <= k < n ==> c[k] == Convolution(a[..], b[..], k)
      invariant forall k :: size <= k < c.Length ==> c[k] == old(c[k])
    {
      c[n] := 0;
      for m := 0 to n + 1
        invariant c[n] == ConvTo(a[..], b[..], n, m)
        invariant forall k :: 0 <= k < n ==> c[k] == Convolution(a[..], b[..], k)
        invariant forall k :: size <= k < c.Length ==> c[k] == old(c[k])
      {
        assert At(a[..], m) == a[m] && At(b[..], n - m) == b[n - m];
        c[n] := c[n] + a[m] * b[n - m];
      }
    }
  }

  /** Summing the first `k` terms from the top equals summing the other
      series' terms from `n - k + 1` up. */
  lemma {:induction false} ConvToReversed(a: seq<int>, b: seq<int>, n: nat, k: nat)
    requires k <= n + 1
    ensures ConvTo(a, b, n, k) == ConvFrom(b, a, n, n + 1 - k)
  {
    if k > 0 {
      ConvToReversed(a, b, n, k - 1);
      assert n - (k - 1) == n + 1 - k;
      assert At(a, k - 1) * At(b, n + 1 - k) == At(b, n + 1 - k) * At(a, n - (n + 1 - k));
    }
  }

  /** The sum from the low end and the sum from the top meet. */
  lemma {:induction false} ConvFromTo(a: seq<int>, b: seq<int>, n: nat, lo: nat)
    requires lo <= n + 1
    ensures ConvTo(a, b, n, lo) + ConvFrom(a, b, n, lo) == Convolution(a, b, n)
    decreases n + 1 - lo
  {
    if lo <= n {
      ConvFromTo(a, b, n, lo + 1);
    }
  }

  /** The product of power series is commutative: each coefficient is the
      same with the factors exchanged. */
  lemma ConvolutionCommutes(a: seq<int>, b: seq<int>, n: nat)
    ensures Convolution(a, b, n) == Convolution(b, a, n)
  {
    ConvToReversed(a, b, n, n + 1);
    ConvFromTo(b, a, n, 0);
  }

  /** The series `1` is the unit of the product. */
  lemma {:induction false} ConvolutionUnit(b: seq<int>, n: nat)
    ensures Convolution([1], b, n) == At(b, n)
  {
    ConvToUnit(b, n, n + 1);
  }

  lemma {:induction false} ConvToUnit(b: seq<int>, n: nat, k: nat)
    requires 1 <= k
    ensures ConvTo([1], b, n, k) == At(b, n)
  {
    if k > 1 {
      ConvToUnit(b, n, k - 1);
      assert At([1], k - 1) == 0;
    }
  }
}
