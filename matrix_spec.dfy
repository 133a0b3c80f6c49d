/** Specifications of the matrix operations of ginac/matrix.cpp on the
    flat row-major entry vector: entry `(r, c)` of a matrix with `cols`
    columns is element `r * cols + c`.  Entries are integers standing in
    for the symbolic `ex` entries. */
module MatrixSpec {

  // ------------------------------------------------------------ flat indices

  lemma MulLeftMono(a: nat, b: nat, n: nat)
    requires a <= b
    ensures a * n <= b * n
  {
  }

  /** The flat index of an entry inside the grid lies inside the vector. */
  lemma FlatBound(r: nat, c: nat, rows: nat, cols: nat)
    requires r < rows && c < cols
    ensures r * cols + c < rows * cols
  {
    MulLeftMono(r + 1, rows, cols);
    assert (r + 1) * cols == r * cols + cols;
  }

  /** Distinct grid positions have distinct flat indices. */
  lemma FlatInjective(r1: nat, c1: nat, r2: nat, c2: nat, cols: nat)
    requires c1 < cols && c2 < cols
    ensures r1 * cols + c1 == r2 * cols + c2 <==> r1 == r2 && c1 == c2
  {
    if r1 < r2 {
      MulLeftMono(r1 + 1, r2, cols);
      assert (r1 + 1) * cols == r1 * cols + cols;
    } else if r2 < r1 {
      MulLeftMono(r2 + 1, r1, cols);
      assert (r2 + 1) * cols == r2 * cols + cols;
    }
  }

  /** Every index of the vector is the flat index of a grid position. */
  lemma FlatCover(k: nat, rows: nat, cols: nat) returns (r: nat, c: nat)
    requires k < rows * cols
    ensures r < rows && c < cols && k == r * cols + c
  {
    assert cols > 0;
    r, c := k / cols, k % cols;
    assert k == r * cols + c;
    if r >= rows {
      MulLeftMono(rows, r, cols);
    }
  }

  /** An element of `m`, and 0 past its end. */
  function Get(m: seq<int>, i: nat): int
  {
    if i < |m| then m[i] else 0
  }

  /** Entry `(r, c)` of the matrix `m` with `cols` columns. */
  function Entry(m: seq<int>, cols: nat, r: nat, c: nat): int
  {
    Get(m, r * cols + c)
  }

  /** Two vectors of one shape are equal when all their entries are. */
  lemma GridExt(a: seq<int>, b: seq<int>, rows: nat, cols: nat)
    requires |a| == rows * cols && |b| == rows * cols
    requires forall r: nat, c: nat :: r < rows && c < cols ==> Entry(a, cols, r, c) == Entry(b, cols, r, c)
    ensures a == b
  {
    forall k | 0 <= k < |a|
      ensures a[k] == b[k]
    {
      var r, c := FlatCover(k, rows, cols);
      assert Entry(a, cols, r, c) == Entry(b, cols, r, c);
    }
  }

  /** Writing entry `(r, c)` changes that entry and no other. */
  lemma UpdateEntry(s: seq<int>, rows: nat, cols: nat, r: nat, c: nat, v: int, r2: nat, c2: nat)
    requires |s| == rows * cols && r < rows && c < cols && c2 < cols
    ensures r * cols + c < |s|
    ensures Entry(s[r * cols + c := v], cols, r2, c2) == if r2 == r && c2 == c then v else Entry(s, cols, r2, c2)
  {
    FlatBound(r, c, rows, cols);
    FlatInjective(r, c, r2, c2, cols);
  }

  /** The `rows` by `cols` matrix with entry `(r, c)` equal to `f(r, c)`. */
  function Tabulate(rows: nat, cols: nat, f: (nat, nat) -> int): (t: seq<int>)
    ensures |t| == rows * cols
  {
    if cols == 0 then []
    else seq(rows * cols, k requires 0 <= k < rows * cols => f(k / cols, k % cols))
  }

  lemma TabulateEntry(rows: nat, cols: nat, f: (nat, nat) -> int, r: nat, c: nat)
    requires r < rows && c < cols
    ensures r * cols + c < rows * cols
    ensures Entry(Tabulate(rows, cols, f), cols, r, c) == f(r, c)
  {
    FlatBound(r, c, rows, cols);
    var k := r * cols + c;
    var q, s := FlatCover(k, rows, cols);
    FlatInjective(q, s, r, c, cols);
    assert k / cols == q && k % cols == s by {
      assert k == cols * (k / cols) + k % cols;
      assert 0 <= k % cols < cols;
      FlatInjective(k / cols, k % cols, r, c, cols);
    }
  }

  // ------------------------------------------------------------ transpose

  /** The transpose of a `rows` by `cols` matrix: `cols` by `rows`. */
  function TransposeOf(rows: nat, cols: nat, m: seq<int>): (t: seq<int>)
    ensures |t| == cols * rows
  {
    Tabulate(cols, rows, (r: nat, c: nat) => Entry(m, cols, c, r))
  }

  lemma TransposeEntry(rows: nat, cols: nat, m: seq<int>, r: nat, c: nat)
    requires r < cols && c < rows
    ensures Entry(TransposeOf(rows, cols, m), rows, r, c) == Entry(m, cols, c, r)
  {
    TabulateEntry(cols, rows, (r: nat, c: nat) => Entry(m, cols, c, r), r, c);
  }

  /** Transposing twice gives back the matrix. */
  lemma TransposeInvolution(rows: nat, cols: nat, m: seq<int>)
    requires |m| == rows * cols
    ensures TransposeOf(cols, rows, TransposeOf(rows, cols, m)) == m
  {
    var t := TransposeOf(rows, cols, m);
    forall r: nat, c: nat | r < rows && c < cols
      ensures Entry(TransposeOf(cols, rows, t), cols, r, c) == Entry(m, cols, r, c)
    {
      TransposeEntry(cols, rows, t, r, c);
      TransposeEntry(rows, cols, m, c, r);
    }
    GridExt(TransposeOf(cols, rows, t), m, rows, cols);
  }

  // ------------------------------------------------------------ sum and difference

  /** Entry-wise sum of two vectors of one length. */
  function AddOf(a: seq<int>, b: seq<int>): (r: seq<int>)
    requires |a| == |b|
    ensures |r| == |a| && forall i :: 0 <= i < |a| ==> r[i] == a[i] + b[i]
  {
    seq(|a|, i requires 0 <= i < |a| => a[i] + b[i])
  }

  /** Entry-wise difference of two vectors of one length. */
  function SubOf(a: seq<int>, b: seq<int>): (r: seq<int>)
    requires |a| == |b|
    ensures |r| == |a| && forall i :: 0 <= i < |a| ==> r[i] == a[i] - b[i]
  {
    seq(|a|, i requires 0 <= i < |a| => a[i] - b[i])
  }

  /** Subtracting what was added gives back the matrix. */
  lemma SubUndoesAdd(a: seq<int>, b: seq<int>)
    requires |a| == |b|
    ensures SubOf(AddOf(a, b), b) == a
  {
  }

  /** Addition does not depend on the order of the operands. */
  lemma AddCommutes(a: seq<int>, b: seq<int>)
    requires |a| == |b|
    ensures AddOf(a, b) == AddOf(b, a)
  {
  }

  // ------------------------------------------------------------ product

  /** `Σ_{l < n} a(i, l) * b(l, j)` for `a` with `k` columns and `b` with `p`
      columns. */
  function Dot(a: seq<int>, b: seq<int>, k: nat, p: nat, i: nat, j: nat, n: nat): int
  {
    if n == 0 then 0 else Dot(a, b, k, p, i, j, n - 1) + Entry(a, k, i, n - 1) * Entry(b, p, n - 1, j)
  }

  /** The product of the `rows` by `k` matrix `a` and the `k` by `p`
      matrix `b`. */
  function MulOf(rows: nat, k: nat, p: nat, a: seq<int>, b: seq<int>): (r: seq<int>)
    ensures |r| == rows * p
  {
    Tabulate(rows, p, (i: nat, j: nat) => Dot(a, b, k, p, i, j, k))
  }

  lemma MulEntry(rows: nat, k: nat, p: nat, a: seq<int>, b: seq<int>, i: nat, j: nat)
    requires i < rows && j < p
    ensures Entry(MulOf(rows, k, p, a, b), p, i, j) == Dot(a, b, k, p, i, j, k)
  {
    TabulateEntry(rows, p, (i: nat, j: nat) => Dot(a, b, k, p, i, j, k), i, j);
  }

  /** The dot product of a row of `a` and a column of `b` is that of the
      corresponding column of the transpose of `b` and row of the
      transpose of `a`. */
  lemma {:induction false} DotTranspose(rows: nat, k: nat, p: nat, a: seq<int>, b: seq<int>, i: nat, j: nat, n: nat)
    requires i < rows && j < p && n <= k
    ensures Dot(TransposeOf(k, p, b), TransposeOf(rows, k, a), k, rows, j, i, n) == Dot(a, b, k, p, i, j, n)
  {
    if n > 0 {
      DotTranspose(rows, k, p, a, b, i, j, n - 1);
      var x := Entry(a, k, i, n - 1);
      var y := Entry(b, p, n - 1, j);
      TransposeEntry(k, p, b, j, n - 1);
      TransposeEntry(rows, k, a, n - 1, i);
      assert Entry(TransposeOf(k, p, b), k, j, n - 1) == y;
      assert Entry(TransposeOf(rows, k, a), rows, n - 1, i) == x;
      assert y * x == x * y;
    }
  }

  /** `(a b)^T == b^T a^T`. */
  lemma MulTranspose(rows: nat, k: nat, p: nat, a: seq<int>, b: seq<int>)
    ensures TransposeOf(rows, p, MulOf(rows, k, p, a, b))
            == MulOf(p, k, rows, TransposeOf(k, p, b), TransposeOf(rows, k, a))
  {
    var lhs := TransposeOf(rows, p, MulOf(rows, k, p, a, b));
    var rhs := MulOf(p, k, rows, TransposeOf(k, p, b), TransposeOf(rows, k, a));
    forall r: nat, c: nat | r < p && c < rows
      ensures Entry(lhs, rows, r, c) == Entry(rhs, rows, r, c)
    {
      TransposeEntry(rows, p, MulOf(rows, k, p, a, b), r, c);
      MulEntry(rows, k, p, a, b, c, r);
      MulEntry(p, k, rows, TransposeOf(k, p, b), TransposeOf(rows, k, a), r, c);
      DotTranspose(rows, k, p, a, b, c, r, k);
    }
    GridExt(lhs, rhs, p, rows);
  }

  // ------------------------------------------------------------ trace

  /** The sum of the first `n` diagonal entries of a matrix with `cols`
      columns. */
  function TraceOf(cols: nat, m: seq<int>, n: nat): int
  {
    if n == 0 then 0 else TraceOf(cols, m, n - 1) + Entry(m, cols, n - 1, n - 1)
  }

  /** The trace of a sum is the sum of the traces. */
  lemma {:induction false} TraceAdd(size: nat, a: seq<int>, b: seq<int>, n: nat)
    requires |a| == |b| == size * size && n <= size
    ensures TraceOf(size, AddOf(a, b), n) == TraceOf(size, a, n) + TraceOf(size, b, n)
  {
    if n > 0 {
      TraceAdd(size, a, b, n - 1);
      FlatBound(n - 1, n - 1, size, size);
    }
  }

  /** A matrix and its transpose have the same trace. */
  lemma {:induction false} TraceTranspose(size: nat, m: seq<int>, n: nat)
    requires n <= size
    ensures TraceOf(size, TransposeOf(size, size, m), n) == TraceOf(size, m, n)
  {
    if n > 0 {
      TraceTranspose(size, m, n - 1);
      TransposeEntry(size, size, m, n - 1, n - 1);
    }
  }

  // ------------------------------------------------------------ comparison

  /** `-1`, `0` or `1` as `x` is below, equal to or above `y`. */
  function Sign(x: int, y: int): int
  {
    if x < y then -1 else if x > y then 1 else 0
  }

  /** The comparison of the first differing element at or after `k`, 0 when
      there is none. */
  function CompareFrom(a: seq<int>, b: seq<int>, k: nat): (r: int)
    requires |a| == |b|
    ensures r == 0 <==> k >= |a| || a[k..] == b[k..]
    decreases |a| - k
  {
    if k >= |a| then 0
    else if a[k] != b[k] then Sign(a[k], b[k])
    else
      assert a[k..] == [a[k]] + a[k + 1..] && b[k..] == [b[k]] + b[k + 1..];
      CompareFrom(a, b, k + 1)
  }

  /** `compare_same_type`: rows, then columns, then the first differing
      entry in row-major order. */
  function CompareOf(rows1: nat, cols1: nat, m1: seq<int>, rows2: nat, cols2: nat, m2: seq<int>): int
    requires |m1| == rows1 * cols1 && |m2| == rows2 * cols2
  {
    if rows1 != rows2 then (if rows1 < rows2 then -1 else 1)
    else if cols1 != cols2 then (if cols1 < cols2 then -1 else 1)
    else CompareFrom(m1, m2, 0)
  }

  /** Two matrices compare equal exactly when they have the same shape and
      the same entries. */
  lemma CompareZeroIffEqual(rows1: nat, cols1: nat, m1: seq<int>, rows2: nat, cols2: nat, m2: seq<int>)
    requires |m1| == rows1 * cols1 && |m2| == rows2 * cols2
    ensures CompareOf(rows1, cols1, m1, rows2, cols2, m2) == 0 <==> rows1 == rows2 && cols1 == cols2 && m1 == m2
  {
    if rows1 == rows2 && cols1 == cols2 {
      assert m1[0..] == m1 && m2[0..] == m2;
    }
  }

  /** Swapping the operands negates the comparison. */
  lemma {:induction false} CompareFromAntisymmetric(a: seq<int>, b: seq<int>, k: nat)
    requires |a| == |b|
    ensures CompareFrom(a, b, k) == -CompareFrom(b, a, k)
    decreases |a| - k
  {
    if k < |a| && a[k] == b[k] {
      CompareFromAntisymmetric(a, b, k + 1);
    }
  }

  lemma CompareAntisymmetric(rows1: nat, cols1: nat, m1: seq<int>, rows2: nat, cols2: nat, m2: seq<int>)
    requires |m1| == rows1 * cols1 && |m2| == rows2 * cols2
    ensures CompareOf(rows1, cols1, m1, rows2, cols2, m2) == -CompareOf(rows2, cols2, m2, rows1, cols1, m1)
  {
    if rows1 == rows2 && cols1 == cols2 {
      CompareFromAntisymmetric(m1, m2, 0);
    }
  }

  // ------------------------------------------------------------ pivoting

  /** The first row at or after `r` with a nonzero entry in column `co`, or
      `rows` when there is none. */
  function PivotRow(rows: nat, cols: nat, m: seq<int>, co: nat, r: nat): (p: nat)
    requires r <= rows
    ensures r <= p <= rows
    decreases rows - r
  {
    if r == rows then rows
    else if Entry(m, cols, r, co) != 0 then r
    else PivotRow(rows, cols, m, co, r + 1)
  }

  /** `PivotRow` finds the first row at or after `r` whose entry in column
      `co` is nonzero: every row it passes over has a zero there. */
  lemma {:induction false} PivotRowFirst(rows: nat, cols: nat, m: seq<int>, co: nat, r: nat)
    requires r <= rows
    ensures var p := PivotRow(rows, cols, m, co, r);
            (p < rows ==> Entry(m, cols, p, co) != 0) && forall q :: r <= q < p ==> Entry(m, cols, q, co) == 0
    decreases rows - r
  {
    if r < rows && Entry(m, cols, r, co) == 0 {
      PivotRowFirst(rows, cols, m, co, r + 1);
    }
  }

  /** The matrix with rows `i` and `k` exchanged. */
  function SwapRows(rows: nat, cols: nat, m: seq<int>, i: nat, k: nat): (t: seq<int>)
    ensures |t| == rows * cols
  {
    Tabulate(rows, cols, (r: nat, c: nat) => Entry(m, cols, if r == i then k else if r == k then i else r, c))
  }

  lemma SwapRowsEntry(rows: nat, cols: nat, m: seq<int>, i: nat, k: nat, r: nat, c: nat)
    requires r < rows && c < cols
    ensures Entry(SwapRows(rows, cols, m, i, k), cols, r, c)
            == Entry(m, cols, if r == i then k else if r == k then i else r, c)
  {
    TabulateEntry(rows, cols, (r: nat, c: nat) => Entry(m, cols, if r == i then k else if r == k then i else r, c), r, c);
  }

  /** Exchanging two rows twice gives back the matrix. */
  lemma SwapRowsTwice(rows: nat, cols: nat, m: seq<int>, i: nat, k: nat)
    requires |m| == rows * cols && i < rows && k < rows
    ensures SwapRows(rows, cols, SwapRows(rows, cols, m, i, k), i, k) == m
  {
    var s := SwapRows(rows, cols, m, i, k);
    forall r: nat, c: nat | r < rows && c < cols
      ensures Entry(SwapRows(rows, cols, s, i, k), cols, r, c) == Entry(m, cols, r, c)
    {
      SwapRowsEntry(rows, cols, s, i, k, r, c);
      SwapRowsEntry(rows, cols, m, i, k, if r == i then k else if r == k then i else r, c);
    }
    GridExt(SwapRows(rows, cols, s, i, k), m, rows, cols);
  }

  /** Rows `i` and `k` exchanged in the first `done` columns only, one
      column after the other. */
  function PartialSwap(rows: nat, cols: nat, m: seq<int>, i: nat, k: nat, done: nat): (t: seq<int>)
    requires |m| == rows * cols && i < rows && k < rows && done <= cols
    ensures |t| == rows * cols
  {
    if done == 0 then m
    else
      var t := PartialSwap(rows, cols, m, i, k, done - 1);
      FlatBound(k, done - 1, rows, cols);
      FlatBound(i, done - 1, rows, cols);
      t[k * cols + done - 1 := t[i * cols + done - 1]][i * cols + done - 1 := t[k * cols + done - 1]]
  }

  lemma {:induction false} PartialSwapEntry(rows: nat, cols: nat, m: seq<int>, i: nat, k: nat, done: nat, r: nat, c: nat)
    requires |m| == rows * cols && i < rows && k < rows && i != k && done <= cols
    requires r < rows && c < cols
    ensures Entry(PartialSwap(rows, cols, m, i, k, done), cols, r, c)
            == Entry(m, cols, if c < done && r == i then k else if c < done && r == k then i else r, c)
  {
    if done > 0 {
      var t := PartialSwap(rows, cols, m, i, k, done - 1);
      var d := done - 1;
      PartialSwapEntry(rows, cols, m, i, k, d, r, c);
      PartialSwapEntry(rows, cols, m, i, k, d, i, d);
      PartialSwapEntry(rows, cols, m, i, k, d, k, d);
      FlatBound(k, d, rows, cols);
      FlatBound(i, d, rows, cols);
      var t1 := t[k * cols + d := t[i * cols + d]];
      UpdateEntry(t, rows, cols, k, d, t[i * cols + d], r, c);
      UpdateEntry(t1, rows, cols, i, d, t[k * cols + d], r, c);
      assert t[i * cols + d] == Entry(t, cols, i, d) && t[k * cols + d] == Entry(t, cols, k, d);
    }
  }

  /** Once every column is exchanged the two rows are. */
  lemma PartialSwapAll(rows: nat, cols: nat, m: seq<int>, i: nat, k: nat)
    requires |m| == rows * cols && i < rows && k < rows && i != k
    ensures PartialSwap(rows, cols, m, i, k, cols) == SwapRows(rows, cols, m, i, k)
  {
    forall r: nat, c: nat | r < rows && c < cols
      ensures Entry(PartialSwap(rows, cols, m, i, k, cols), cols, r, c) == Entry(SwapRows(rows, cols, m, i, k), cols, r, c)
    {
      PartialSwapEntry(rows, cols, m, i, k, cols, r, c);
      SwapRowsEntry(rows, cols, m, i, k, r, c);
    }
    GridExt(PartialSwap(rows, cols, m, i, k, cols), SwapRows(rows, cols, m, i, k), rows, cols);
  }

  /** After the exchange, the pivot row has a nonzero entry in the pivot
      column. */
  lemma PivotNonzero(rows: nat, cols: nat, m: seq<int>, ro: nat)
    requires ro < rows && ro < cols && PivotRow(rows, cols, m, ro, ro) < rows
    ensures Entry(SwapRows(rows, cols, m, ro, PivotRow(rows, cols, m, ro, ro)), cols, ro, ro) != 0
  {
    PivotRowFirst(rows, cols, m, ro, ro);
    SwapRowsEntry(rows, cols, m, ro, PivotRow(rows, cols, m, ro, ro), ro, ro);
  }
}
