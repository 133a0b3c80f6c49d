/** The matrix container of ginac/matrix.cpp: `row` by `col` entries kept in
    one row-major vector `m`.  Entries are integers standing in for the
    symbolic `ex` entries, and comparing two entries gives -1, 0 or 1 as
    `ex::compare` does. */
module Matrices {
  import opened Outcomes
  import opened MatrixSpec

  class Matrix {
    var row: nat
    var col: nat
    var m: seq<int>

    /** The vector holds exactly `row * col` entries. */
    ghost predicate Valid()
      reads this
    {
      |m| == row * col
    }

    /** The default matrix is the 1 by 1 zero matrix. */
    constructor Default()
      ensures Valid() && row == 1 && col == 1 && m == [0]
    {
      row, col := 1, 1;
      m := [0];
    }

    /** The `r` by `c` zero matrix. */
    constructor Zero(r: nat, c: nat)
      ensures Valid() && row == r && col == c
      ensures forall i :: 0 <= i < |m| ==> m[i] == 0
    {
      row, col := r, c;
      m := seq(r * c, _ => 0);
    }

    /** A matrix from its entry vector, which must already have `r * c`
        entries. */
    constructor FromEntries(r: nat, c: nat, m2: seq<int>)
      requires |m2| == r * c
      ensures Valid() && row == r && col == c && m == m2
    {
      row, col, m := r, c, m2;
    }

    /** The copy constructor. */
    constructor Copy(other: Matrix)
      ensures row == other.row && col == other.col && m == other.m
    {
      row, col, m := other.row, other.col, other.m;
    }

    /** Assignment; assigning a matrix to itself changes nothing. */
    method Assign(other: Matrix)
      modifies this
      ensures row == old(other.row) && col == old(other.col) && m == old(other.m)
    {
      if this != other {
        row, col, m := other.row, other.col, other.m;
      }
    }

    /** The number of operands is the number of entries. */
    function Nops(): (n: nat)
      reads this
      requires Valid()
      ensures n == |m|
    {
      row * col
    }

    /** Entry `(ro, co)`, or a range error outside the matrix. */
    function At(ro: int, co: int): (r: Result<int>)
      reads this
      requires Valid()
      ensures r.Ok? <==> 0 <= ro < row && 0 <= co < col
      ensures r.Err? ==> r.error == RangeError
      ensures r.Ok? ==> r.value == Entry(m, col, ro, co)
    {
      if ro < 0 || ro >= row || co < 0 || co >= col then Err(RangeError)
      else
        FlatBound(ro, co, row, col);
        Ok(m[ro * col + co])
    }

    /** Sets entry `(ro, co)` to `v`; outside the matrix it fails with a
        range error and changes nothing. */
    method Set(ro: int, co: int, v: int) returns (r: Result<()>)
      requires Valid()
      modifies this
      ensures Valid() && row == old(row) && col == old(col)
      ensures r.Ok? <==> 0 <= ro < row && 0 <= co < col
      ensures r.Err? ==> r.error == RangeError && m == old(m)
      ensures r.Ok? ==> At(ro, co) == Ok(v)
      ensures forall r2: nat, c2: nat :: r2 < row && c2 < col && (r2 != ro || c2 != co) ==>
                Entry(m, col, r2, c2) == Entry(old(m), col, r2, c2)
    {
      if ro < 0 || ro >= row || co < 0 || co >= col {
        return Err(RangeError);
      }
      FlatBound(ro, co, row, col);
      ghost var before := m;
      m := m[ro * col + co := v];
      forall r2: nat, c2: nat | r2 < row && c2 < col
        ensures Entry(m, col, r2, c2) == if r2 == ro && c2 == co then v else Entry(before, col, r2, c2)
      {
        UpdateEntry(before, row, col, ro, co, v, r2, c2);
      }
      r := Ok(());
    }

    /** The `col` by `row` transpose. */
    method Transpose() returns (t: Matrix)
      requires Valid()
      ensures fresh(t) && t.Valid() && t.row == col && t.col == row
      ensures t.m == TransposeOf(row, col, m)
    {
      var trans := seq(col * row, _ => 0);
      for r := 0 to col
        invariant |trans| == col * row
        invariant forall r2: nat, c2: nat :: r2 < r && c2 < row ==> Entry(trans, row, r2, c2) == Entry(m, col, c2, r2)
      {
        for c := 0 to row
          invariant |trans| == col * row
          invariant forall r2: nat, c2: nat :: c2 < row && (r2 < r || (r2 == r && c2 < c)) ==>
                      Entry(trans, row, r2, c2) == Entry(m, col, c2, r2)
        {
          FlatBound(c, r, row, col);
          FlatBound(r, c, col, row);
          ghost var before := trans;
          trans := trans[r * row + c := m[c * col + r]];
          forall r2: nat, c2: nat | c2 < row
            ensures Entry(trans, row, r2, c2) == if r2 == r && c2 == c then m[c * col + r] else Entry(before, row, r2, c2)
          {
            UpdateEntry(before, col, row, r, c, m[c * col + r], r2, c2);
          }
        }
      }
      forall r2: nat, c2: nat | r2 < col && c2 < row
        ensures Entry(trans, row, r2, c2) == Entry(TransposeOf(row, col, m), row, r2, c2)
      {
        TransposeEntry(row, col, m, r2, c2);
      }
      GridExt(trans, TransposeOf(row, col, m), col, row);
      t := new Matrix.FromEntries(col, row, trans);
    }

    /** The entry-wise sum; a logic error unless both matrices have the same
        shape. */
    method Add(other: Matrix) returns (r: Result<Matrix>)
      requires Valid() && other.Valid()
      ensures r.Err? <==> col != other.col || row != other.row
      ensures r.Err? ==> r.error == LogicError
      ensures r.Ok? ==> fresh(r.value) && r.value.Valid() && r.value.row == row && r.value.col == col
      ensures r.Ok? ==> r.value.m == AddOf(m, other.m)
    {
      if col != other.col || row != other.row {
        return Err(LogicError);
      }
      var sum := m;
      for i := 0 to |sum|
        invariant |sum| == |m|
        invariant forall k :: 0 <= k < i ==> sum[k] == m[k] + other.m[k]
        invariant forall k :: i <= k < |sum| ==> sum[k] == m[k]
      {
        sum := sum[i := sum[i] + other.m[i]];
      }
      var s := new Matrix.FromEntries(row, col, sum);
      r := Ok(s);
    }

    /** The entry-wise difference; a logic error unless both matrices have
        the same shape. */
    method Sub(other: Matrix) returns (r: Result<Matrix>)
      requires Valid() && other.Valid()
      ensures r.Err? <==> col != other.col || row != other.row
      ensures r.Err? ==> r.error == LogicError
      ensures r.Ok? ==> fresh(r.value) && r.value.Valid() && r.value.row == row && r.value.col == col
      ensures r.Ok? ==> r.value.m == SubOf(m, other.m)
    {
      if col != other.col || row != other.row {
        return Err(LogicError);
      }
      var dif := m;
      for i := 0 to |dif|
        invariant |dif| == |m|
        invariant forall k :: 0 <= k < i ==> dif[k] == m[k] - other.m[k]
        invariant forall k :: i <= k < |dif| ==> dif[k] == m[k]
      {
        dif := dif[i := dif[i] - other.m[i]];
      }
      var d := new Matrix.FromEntries(row, col, dif);
      r := Ok(d);
    }

    /** The `row` by `other.col` product; a logic error unless `col` equals
        `other.row`. */
    method Mul(other: Matrix) returns (r: Result<Matrix>)
      requires Valid() && other.Valid()
      ensures r.Err? <==> col != other.row
      ensures r.Err? ==> r.error == LogicError
      ensures r.Ok? ==> fresh(r.value) && r.value.Valid() && r.value.row == row && r.value.col == other.col
      ensures r.Ok? ==> r.value.m == MulOf(row, col, other.col, m, other.m)
    {
      if col != other.row {
        return Err(LogicError);
      }
      var p := other.col;
      var prod := seq(row * p, _ => 0);
      for i := 0 to row
        invariant |prod| == row * p
        invariant forall i2: nat, j2: nat :: j2 < p ==>
                    Entry(prod, p, i2, j2) == if i2 < i then Dot(m, other.m, col, p, i2, j2, col) else 0
      {
        for j := 0 to p
          invariant |prod| == row * p
          invariant forall i2: nat, j2: nat :: j2 < p ==>
                      Entry(prod, p, i2, j2) == if i2 < i || (i2 == i && j2 < j) then Dot(m, other.m, col, p, i2, j2, col) else 0
        {
          FlatBound(i, j, row, p);
          ghost var before := prod;
          assert Entry(before, p, i, j) == 0;
          assert before[i * p + j := 0] == before;
          for l := 0 to col
            invariant prod == before[i * p + j := Dot(m, other.m, col, p, i, j, l)]
          {
            FlatBound(i, l, row, col);
            FlatBound(l, j, col, p);
            prod := prod[i * p + j := prod[i * p + j] + m[i * col + l] * other.m[l * p + j]];
          }
          forall i2: nat, j2: nat | j2 < p
            ensures Entry(prod, p, i2, j2) == if i2 == i && j2 == j then Dot(m, other.m, col, p, i, j, col) else Entry(before, p, i2, j2)
          {
            UpdateEntry(before, row, p, i, j, Dot(m, other.m, col, p, i, j, col), i2, j2);
          }
        }
      }
      forall i2: nat, j2: nat | i2 < row && j2 < p
        ensures Entry(prod, p, i2, j2) == Entry(MulOf(row, col, p, m, other.m), p, i2, j2)
      {
        MulEntry(row, col, p, m, other.m, i2, j2);
      }
      GridExt(prod, MulOf(row, col, p, m, other.m), row, p);
      var q := new Matrix.FromEntries(row, p, prod);
      r := Ok(q);
    }

    /** The check `determinant`, `charpoly`, `inverse` and `trace` start
        with: a logic error unless the matrix is square. */
    function CheckSquare(): (r: Result<()>)
      reads this
      ensures r.Ok? <==> row == col
      ensures r.Err? ==> r.error == LogicError
    {
      if row != col then Err(LogicError) else Ok(())
    }

    /** The sum of the diagonal entries of a square matrix. */
    method Trace() returns (r: Result<int>)
      requires Valid()
      ensures r.Err? <==> row != col
      ensures r.Err? ==> r.error == LogicError
      ensures r.Ok? ==> r.value == TraceOf(col, m, col)
    {
      var check := CheckSquare();
      if check.Err? {
        return Err(check.error);
      }
      var tr := 0;
      for k := 0 to col
        invariant tr == TraceOf(col, m, k)
      {
        FlatBound(k, k, row, col);
        tr := tr + m[k * col + k];
      }
      r := Ok(tr);
    }

    /** Orders matrices by rows, then columns, then the first differing
        entry in row-major order. */
    method CompareSameType(o: Matrix) returns (r: int)
      requires Valid() && o.Valid()
      ensures r == CompareOf(row, col, m, o.row, o.col, o.m)
    {
      if row != o.row {
        return if row < o.row then -1 else 1;
      }
      if col != o.col {
        return if col < o.col then -1 else 1;
      }
      for i := 0 to row
        invariant CompareFrom(m, o.m, 0) == CompareFrom(m, o.m, i * col)
      {
        for j := 0 to col
          invariant CompareFrom(m, o.m, 0) == CompareFrom(m, o.m, i * col + j)
        {
          FlatBound(i, j, row, col);
          var cmp := Sign(m[i * col + j], o.m[i * col + j]);
          if cmp != 0 {
            return cmp;
          }
        }
        assert i * col + col == (i + 1) * col;
      }
      r := 0;
    }

    /** The row exchange of `pivot`: swaps the entries of rows `i` and
        `k` column by column, in place. */
    method ExchangeRows(i: nat, k: nat)
      requires Valid() && i < row && k < row && i != k
      modifies this
      ensures Valid() && row == old(row) && col == old(col)
      ensures m == SwapRows(row, col, old(m), i, k)
    {
      ghost var before := m;
      for c := 0 to col
        invariant Valid() && row == old(row) && col == old(col)
        invariant m == PartialSwap(row, col, before, i, k, c)
      {
        FlatBound(k, c, row, col);
        FlatBound(i, c, row, col);
        m := m[k * col + c := m[i * col + c]][i * col + c := m[k * col + c]];
      }
      PartialSwapAll(row, col, before, i, k);
    }

    /** Partial pivoting on column `ro`: exchanges row `ro` with the first
        row at or below it whose entry in that column is nonzero.  Returns
        -1 when there is none, 0 when row `ro` itself qualifies, and the
        exchanged row otherwise. */
    method Pivot(ro: nat) returns (k: int)
      requires Valid() && ro < row && ro < col
      modifies this
      ensures Valid() && row == old(row) && col == old(col)
      ensures PivotRow(row, col, old(m), ro, ro) == row ==> k == -1 && m == old(m)
      ensures PivotRow(row, col, old(m), ro, ro) == ro ==> k == 0 && m == old(m)
      ensures ro < PivotRow(row, col, old(m), ro, ro) < row ==>
                k == PivotRow(row, col, old(m), ro, ro) && m == SwapRows(row, col, old(m), ro, k)
    {
      var p := FirstNonzero(ro);
      FlatBound(p, ro, row, col);
      PivotRowFirst(row, col, m, ro, ro);
      if m[p * col + ro] == 0 {
        k := -1;
      } else if p != ro {
        ExchangeRows(ro, p);
        k := p;
      } else {
        k := 0;
      }
    }

    /** The search of `pivot`: the first row at or below `ro` whose entry in
        column `ro` is nonzero, or `ro` when there is none. */
    method FirstNonzero(ro: nat) returns (p: nat)
      requires Valid() && ro < row && ro < col
      ensures ro <= p < row
      ensures PivotRow(row, col, m, ro, ro) < row ==> p == PivotRow(row, col, m, ro, ro)
      ensures PivotRow(row, col, m, ro, ro) == row ==> p == ro
    {
      p := ro;
      var r := ro;
      while r < row
        invariant ro <= r <= row && p == ro
        invariant PivotRow(row, col, m, ro, ro) == PivotRow(row, col, m, ro, r)
      {
        FlatBound(r, ro, row, col);
        if m[r * col + ro] != 0 {
          p := r;
          return;
        }
        r := r + 1;
      }
    }
  }
}
