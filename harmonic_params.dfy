/** The parameter rewrites of ginac/inifcns_nstdsums.cpp that act on the
    `H` function symbolically: the shuffle with a one-element `H`
    (`trafo_H_mult`), the derivative (`H_deriv`) and the empty parameter
    list of `H_eval`.  An `H` parameter is either a list or a single number;
    the value of `H` itself is not modelled. */
module HarmonicParams {
  import opened Outcomes
  import opened NestedSums

  /** The first operand of `H`: a list of parameters or one number. */
  datatype HParam = ParamList(entries: seq<int>) | Single(value: int)

  /** The parameter list `H` works on: a single number is the list
      holding it. */
  function Params(p: HParam): (l: seq<int>)
    ensures p.Single? ==> l == [p.value]
    ensures p.ParamList? ==> l == p.entries
  {
    match p
    case ParamList(e) => e
    case Single(v) => [v]
  }

  // ------------------------------------------------------------ trafo_H_mult

  /** `s` with `x` inserted at position `i`. */
  function Insert(s: seq<int>, i: nat, x: int): (r: seq<int>)
    requires i <= |s|
    ensures |r| == |s| + 1
  {
    s[..i] + [x] + s[i..]
  }

  /** `s` with position `i` deleted. */
  function Delete(s: seq<int>, i: nat): (r: seq<int>)
    requires i < |s|
    ensures |r| == |s| - 1
  {
    s[..i] + s[i + 1..]
  }

  /** Inserting and then deleting at the same place gives back the list,
      and the inserted value sits at that place. */
  lemma DeleteInsert(s: seq<int>, i: nat, x: int)
    requires i <= |s|
    ensures Insert(s, i, x)[i] == x && Delete(Insert(s, i, x), i) == s
  {
    var r := Insert(s, i, x);
    assert r[..i] == s[..i];
    assert r[i + 1..] == s[i..];
    assert s[..i] + s[i..] == s;
  }

  /** The parameter of the one-element `H`: the first entry of the second
      list when the first list is the longer one, else the first entry of
      the first list. */
  function ShortParam(p1: seq<int>, p2: seq<int>): int
    requires |p1| >= 1 && |p2| >= 1
  {
    if |p1| > 1 then p2[0] else p1[0]
  }

  /** The parameter list of the other `H`. */
  function LongParams(p1: seq<int>, p2: seq<int>): seq<int>
    requires |p1| >= 1 && |p2| >= 1
  {
    if |p1| > 1 then p1 else p2
  }

  /** When one of the two `H` is one-dimensional, the short and the long
      parameters together are exactly the parameters of both. */
  lemma ShortAndLongSplit(p1: seq<int>, p2: seq<int>)
    requires |p1| >= 1 && |p2| >= 1 && (|p1| == 1 || |p2| == 1)
    ensures multiset{ShortParam(p1, p2)} + multiset(LongParams(p1, p2)) == multiset(p1) + multiset(p2)
    ensures |LongParams(p1, p2)| + 1 == |p1| + |p2|
  {
    if |p1| > 1 {
      assert p2 == [p2[0]];
    } else {
      assert p1 == [p1[0]];
    }
  }

  /** The list building of `trafo_H_mult`: one parameter list for every
      place the short parameter can be inserted into the long list; the
      product of the two `H` is the sum of `H` over these lists. */
  method TrafoHMultParams(p1: seq<int>, p2: seq<int>) returns (res: seq<seq<int>>)
    requires |p1| >= 1 && |p2| >= 1
    ensures var hlong := LongParams(p1, p2);
            |res| == |hlong| + 1
            && forall i :: 0 <= i < |res| ==> res[i] == Insert(hlong, i, ShortParam(p1, p2))
  {
    var hshort := ShortParam(p1, p2);
    var hlong := LongParams(p1, p2);
    res := [];
    var i := 0;
    while i <= |hlong|
      invariant 0 <= i <= |hlong| + 1 && |res| == i
      invariant forall k :: 0 <= k < i ==> res[k] == Insert(hlong, k, hshort)
    {
      var newparameter := [];
      var j := 0;
      while j < i
        invariant 0 <= j <= i && newparameter == hlong[..j]
      {
        newparameter := newparameter + [hlong[j]];
        j := j + 1;
      }
      newparameter := newparameter + [hshort];
      while j < |hlong|
        invariant i <= j <= |hlong| && newparameter == hlong[..i] + [hshort] + hlong[i..j]
      {
        assert hlong[i..j + 1] == hlong[i..j] + [hlong[j]];
        newparameter := newparameter + [hlong[j]];
        j := j + 1;
      }
      assert hlong[i..j] == hlong[i..];
      res := res + [newparameter];
      i := i + 1;
    }
  }

  /** Every list `trafo_H_mult` builds is a shuffle of the two parameter
      lists with the short one as a single letter: it holds the parameters
      of both `H`, and deleting the inserted place gives the long list
      back. */
  lemma TrafoHMultShuffles(p1: seq<int>, p2: seq<int>, i: nat)
    requires |p1| >= 1 && |p2| >= 1 && (|p1| == 1 || |p2| == 1)
    requires i <= |LongParams(p1, p2)|
    ensures var r := Insert(LongParams(p1, p2), i, ShortParam(p1, p2));
            multiset(r) == multiset(p1) + multiset(p2) && |r| == |p1| + |p2|
            && Delete(r, i) == LongParams(p1, p2)
  {
    var hlong, hshort := LongParams(p1, p2), ShortParam(p1, p2);
    ShortAndLongSplit(p1, p2);
    DeleteInsert(hlong, i, hshort);
    assert hlong == hlong[..i] + hlong[i..];
    calc {
      multiset(Insert(hlong, i, hshort));
      multiset(hlong[..i]) + multiset{hshort} + multiset(hlong[i..]);
      multiset{hshort} + multiset(hlong);
    }
  }

  // ------------------------------------------------------------ H_deriv

  /** The factor the derivative of `H` carries in front of the remaining
      `H`. */
  datatype Multiplier =
    | OverX            // 1/x
    | OverOneMinusX    // 1/(1-x)
    | OverOnePlusX     // 1/(1+x)

  /** The derivative of `H(m; x)` with respect to one of its arguments:
      zero, or a multiplier times `H` with new parameters. */
  datatype Derivative = Zero | Term(multiplier: Multiplier, params: seq<int>)

  /** The multiplier a leading letter of the expanded notation brings. */
  function MultiplierOf(letter: int): Multiplier
  {
    if letter == 1 then OverOneMinusX else if letter == -1 then OverOnePlusX else OverX
  }

  /** `H_deriv`: the derivative with respect to the parameters (`0`) is
      zero; with respect to `x` (`1`) a leading entry of magnitude above 1
      is moved one step towards 0, and any other leading entry is dropped
      and picks the multiplier. */
  function HDeriv(p: HParam, derivParam: nat): (r: Derivative)
    requires derivParam < 2
    requires derivParam == 1 ==> |Params(p)| >= 1
    ensures r.Zero? <==> derivParam == 0
    ensures r.Term? && Abs(Params(p)[0]) > 1 ==> |r.params| == |Params(p)| && r.multiplier == OverX
    ensures r.Term? && Abs(Params(p)[0]) <= 1 ==> |r.params| + 1 == |Params(p)|
  {
    if derivParam == 0 then Zero
    else
      var m := Params(p);
      var mb := m[0];
      if mb > 1 then Term(OverX, m[0 := mb - 1])
      else if mb < -1 then Term(OverX, m[0 := mb + 1])
      else if mb == 1 then Term(OverOneMinusX, m[1..])
      else if mb == -1 then Term(OverOnePlusX, m[1..])
      else Term(OverX, m[1..])
  }

  /** The expansion of a list is the expansion of its first entry followed
      by the expansion of the rest. */
  lemma ExpandCons(l: seq<int>)
    requires |l| >= 1
    ensures Expand(l) == ExpandEntry(l[0]) + Expand(l[1..])
  {
    var t := l[1..];
    assert |t| == |l| - 1;
    ExpandIsFlat(l, |l|);
    ExpandIsFlat(t, |t|);
    FlatToCons(ExpandEntry, l, |t|);
  }

  /** Moving an entry of magnitude above 1 one step towards 0 drops one
      leading zero of its expansion. */
  lemma EntryPeel(x: int)
    requires Abs(x) > 1
    ensures ExpandEntry(x) == [0] + ExpandEntry(if x > 1 then x - 1 else x + 1)
  {
    if x > 2 {
      assert Zeros(x - 1) == [0] + Zeros(x - 2);
    } else if x < -2 {
      assert Zeros(-x - 1) == [0] + Zeros(-x - 2);
    }
  }

  /** In the expanded notation the derivative with respect to `x` drops
      the first letter, which picks the multiplier: `d/dx H(a, rest; x)` is
      `f_a(x) H(rest; x)` with `f_0 = 1/x`, `f_1 = 1/(1-x)` and
      `f_-1 = 1/(1+x)`.  The weight goes down by one. */
  lemma HDerivDropsFirstLetter(p: HParam)
    requires |Params(p)| >= 1
    ensures var m, r := Params(p), HDeriv(p, 1);
            |Expand(m)| >= 1 && r.multiplier == MultiplierOf(Expand(m)[0])
            && Expand(r.params) == Expand(m)[1..] && Weight(r.params) + 1 == Weight(m)
  {
    var m, r := Params(p), HDeriv(p, 1);
    var rest := Expand(m[1..]);
    ExpandCons(m);
    EntryShape(m[0]);
    if Abs(m[0]) > 1 {
      var m2 := r.params;
      ExpandCons(m2);
      assert m2[1..] == m[1..];
      EntryPeel(m[0]);
      DropHead(0, ExpandEntry(m2[0]), rest);
    } else {
      assert ExpandEntry(m[0]) == [m[0]];
      DropHead(m[0], [], rest);
      assert [m[0]] + [] == [m[0]];
    }
    ExpandLetters(m, |m|);
    ExpandLetters(r.params, |r.params|);
  }

  lemma DropHead(x: int, a: seq<int>, b: seq<int>)
    ensures (([x] + a) + b)[0] == x && (([x] + a) + b)[1..] == a + b
  {
    assert (([x] + a) + b)[1..] == ([x] + (a + b))[1..];
  }

  // ------------------------------------------------------------ H_eval

  /** The case `H_eval` settles before any evaluation: an empty parameter
      list gives 1; `None` means the general evaluation, which is not part
      of this model, takes over. */
  function HEvalEmpty(p: HParam): (r: Option<int>)
    ensures r.Some? ==> r.value == 1
  {
    if Params(p) == [] then Some(1) else None
  }

  /** `H` is settled to 1 exactly for the parameters of weight 0. */
  lemma HEvalEmptyIffWeightZero(p: HParam)
    ensures HEvalEmpty(p).Some? <==> Weight(Params(p)) == 0
  {
    var m := Params(p);
    if m != [] {
      assert WeightTo(m, |m|) >= 1;
    }
  }
}
