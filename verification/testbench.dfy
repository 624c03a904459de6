/**
 * The stand-alone SpMV testbench: the random CSR generator, the array-based
 * reference product and the plain `spmv` kernel, which adds each row's dot
 * product into the output it is given. These work on the three raw arrays
 * (`row_ptr`, `col_idx`, `values`) rather than on a `CSRMatrix`.
 */
module Testbench {
  import opened Csr
  import opened CInt

  /** Positions `lo .. hi` of `s` hold strictly increasing values. */
  predicate RowSorted(s: seq<nat>, lo: nat, hi: nat)
    requires lo <= hi <= |s|
  {
    forall a, b :: lo <= a < b < hi ==> s[a] < s[b]
  }

  /**
   * One row of `generateRandomCSR`: for each column `j < cols` in turn, one
   * draw decides whether the cell is stored and, if it is, a second draw
   * gives its value `rand() % 100`. `draws` is the count before the row.
   */
  method GenerateRow(cols: nat, density: int, rand: nat -> nat, draws: nat)
    returns (rowCols: seq<nat>, rowVals: seq<int>, after: nat)
    ensures |rowVals| == |rowCols| && RowSorted(rowCols, 0, |rowCols|)
    ensures forall k :: 0 <= k < |rowCols| ==> rowCols[k] < cols
    ensures forall k :: 0 <= k < |rowVals| ==> 0 <= rowVals[k] < 100
    ensures after == draws + cols + |rowCols|
    ensures density <= 0 ==> |rowCols| == 0
    ensures density >= 100 ==> |rowCols| == cols
  {
    rowCols, rowVals, after := [], [], draws;
    var j := 0;
    while j < cols
      invariant j <= cols && |rowVals| == |rowCols| && RowSorted(rowCols, 0, |rowCols|)
      invariant forall k :: 0 <= k < |rowCols| ==> rowCols[k] < j
      invariant forall k :: 0 <= k < |rowVals| ==> 0 <= rowVals[k] < 100
      invariant after == draws + j + |rowCols|
      invariant density <= 0 ==> |rowCols| == 0
      invariant density >= 100 ==> |rowCols| == j
    {
      var d := rand(after);
      after := after + 1;
      if d % 100 < density {
        rowCols := rowCols + [j];
        rowVals := rowVals + [rand(after) % 100];
        after := after + 1;
      }
      j := j + 1;
    }
  }

  /** Appending a sorted run after `lo` keeps earlier runs and sorts the new one. */
  lemma AppendRowSorted(colIdx: seq<nat>, row: seq<nat>, lo: nat, hi: nat)
    requires lo <= hi <= |colIdx| && RowSorted(colIdx, lo, hi) && RowSorted(row, 0, |row|)
    ensures RowSorted(colIdx + row, lo, hi)
    ensures RowSorted(colIdx + row, |colIdx|, |colIdx| + |row|)
  {
    var s := colIdx + row;
    forall a, b | |colIdx| <= a < b < |colIdx| + |row|
      ensures s[a] < s[b]
    {
      assert s[a] == row[a - |colIdx|] && s[b] == row[b - |colIdx|];
    }
  }

  /** One more row of `cols` cells. */
  lemma MulStep(i: nat, cols: nat)
    ensures (i + 1) * cols == i * cols + cols
  { }

  /**
   * `generateRandomCSR` into empty arrays. `rand(d)` is the `d`-th value
   * `rand()` returns after the generator is seeded; `draws` counts the
   * values used. Every cell `(i, j)` draws once to decide whether it is
   * stored and, if it is, once more for its value `rand() % 100`.
   */
  method GenerateRandomCsr(numRows: int, numCols: int, density: int, rand: nat -> nat)
    returns (rowPtr: seq<nat>, colIdx: seq<nat>, values: seq<int>, draws: nat)
    ensures |rowPtr| == Count(numRows) + 1 && |values| == |colIdx|
    ensures Valid(CsrMatrix(Count(numRows), Count(numCols), values, colIdx, rowPtr))
    ensures forall k :: 0 <= k < |colIdx| ==> colIdx[k] < numCols
    ensures forall r :: 0 <= r < Count(numRows) ==> RowSorted(colIdx, rowPtr[r], rowPtr[r + 1])
    ensures forall k :: 0 <= k < |values| ==> 0 <= values[k] < 100
    ensures draws == Count(numRows) * Count(numCols) + |colIdx|
    ensures density <= 0 ==> |colIdx| == 0
    ensures density >= 100 ==> |colIdx| == Count(numRows) * Count(numCols)
  {
    var rows := Count(numRows);
    var cols := Count(numCols);
    rowPtr, colIdx, values, draws := [0], [], [], 0;
    var i := 0;
    while i < rows
      invariant i <= rows
      invariant |rowPtr| == i + 1 && rowPtr[0] == 0 && rowPtr[i] == |colIdx| && |values| == |colIdx|
      invariant forall a, b :: 0 <= a <= b < |rowPtr| ==> rowPtr[a] <= rowPtr[b]
      invariant forall k :: 0 <= k < |colIdx| ==> colIdx[k] < numCols
      invariant forall r :: 0 <= r < i ==> RowSorted(colIdx, rowPtr[r], rowPtr[r + 1])
      invariant forall k :: 0 <= k < |values| ==> 0 <= values[k] < 100
      invariant draws == i * cols + |colIdx|
      invariant density <= 0 ==> |colIdx| == 0
      invariant density >= 100 ==> |colIdx| == i * cols
    {
      var rowCols, rowVals, after := GenerateRow(cols, density, rand, draws);
      var cs := colIdx + rowCols;
      var ps := rowPtr + [|cs|];
      forall r | 0 <= r < i + 1
        ensures RowSorted(cs, ps[r], ps[r + 1])
      {
        if r < i {
          AppendRowSorted(colIdx, rowCols, rowPtr[r], rowPtr[r + 1]);
        } else {
          AppendRowSorted(colIdx, rowCols, 0, 0);
        }
      }
      forall a, b | 0 <= a <= b < |ps|
        ensures ps[a] <= ps[b]
      {
        if a <= i && b == i + 1 {
          assert rowPtr[a] <= rowPtr[i];
        }
      }
      MulStep(i, cols);
      colIdx, values, draws := cs, values + rowVals, after;
      rowPtr := ps;
      i := i + 1;
    }
  }

  /** Positions `lo .. hi` of a row may be read: in both arrays, with a column inside the vector. */
  predicate RangeReadable(colIdx: seq<int>, values: seq<int>, n: nat, lo: int, hi: int) {
    hi <= lo || (0 <= lo && hi <= |values| && hi <= |colIdx| && forall j :: lo <= j < hi ==> 0 <= colIdx[j] < n)
  }

  /** Every row's range may be read. */
  predicate RowsReadable(rowPtr: seq<int>, colIdx: seq<int>, values: seq<int>, n: nat) {
    forall i :: 0 <= i < |rowPtr| - 1 ==> RangeReadable(colIdx, values, n, rowPtr[i], rowPtr[i + 1])
  }

  /** `Σ values[j] * v[col_idx[j]]` over `lo <= j < hi`; an empty or reversed range sums to 0. */
  function RangeDot(colIdx: seq<int>, values: seq<int>, v: seq<int>, lo: int, hi: int): int
    requires RangeReadable(colIdx, values, |v|, lo, hi)
    decreases hi - lo
  {
    if hi <= lo then 0
    else
      var k := hi - 1;
      assert lo <= k < hi;
      RangeDot(colIdx, values, v, lo, k) + values[k] * v[colIdx[k]]
  }

  /**
   * On a valid matrix a row's range sum is the row's dot product: the
   * array loops compute `Csr.SpMV`.
   */
  lemma {:induction false} RangeDotIsDot(m: CsrMatrix, v: seq<int>, lo: nat, hi: nat)
    requires Valid(m) && IndicesBelow(m, |v|) && lo <= hi <= |m.data|
    ensures RangeReadable(m.indices, m.data, |v|, lo, hi)
    ensures ColsBelow(Entries(m)[lo..hi], |v|)
    ensures RangeDot(m.indices, m.data, v, lo, hi) == Dot(Entries(m)[lo..hi], v)
    decreases hi - lo
  {
    if lo < hi {
      RangeDotIsDot(m, v, lo, hi - 1);
      assert Entries(m)[lo..hi][..hi - 1 - lo] == Entries(m)[lo..hi - 1];
    }
  }

  /** Row `r`'s range sum on a valid matrix is `Csr.SpMV(m, v)[r]`. */
  lemma RangeDotsAreSpMV(m: CsrMatrix, v: seq<int>, r: nat)
    requires Valid(m) && IndicesBelow(m, |v|) && r < m.numRows
    ensures RowsReadable(m.indptr, m.indices, m.data, |v|)
    ensures RangeDot(m.indices, m.data, v, m.indptr[r], m.indptr[r + 1]) == SpMV(m, v)[r]
  {
    forall i | 0 <= i < m.numRows
      ensures RangeReadable(m.indices, m.data, |v|, m.indptr[i], m.indptr[i + 1])
    {
      assert m.indptr[i] <= m.indptr[i + 1] <= m.indptr[m.numRows];
    }
    assert m.indptr[r] <= m.indptr[r + 1] <= m.indptr[m.numRows];
    RangeDotIsDot(m, v, m.indptr[r], m.indptr[r + 1]);
  }

  /**
   * `matrixVectorMultiply`: `row_ptr.size() - 1` results, each the sum over
   * its row's range.
   */
  method MatrixVectorMultiply(rowPtr: seq<int>, colIdx: seq<int>, values: seq<int>, v: seq<int>)
    returns (result: seq<int>)
    requires |rowPtr| >= 1 && RowsReadable(rowPtr, colIdx, values, |v|)
    ensures |result| == |rowPtr| - 1
    ensures forall i :: 0 <= i < |result| ==> result[i] == RangeDot(colIdx, values, v, rowPtr[i], rowPtr[i + 1])
  {
    var numRows := |rowPtr| - 1;
    result := seq(numRows, _ => 0);
    var i := 0;
    while i < numRows
      invariant i <= numRows && |result| == numRows
      invariant forall r :: 0 <= r < i ==> result[r] == RangeDot(colIdx, values, v, rowPtr[r], rowPtr[r + 1])
      invariant forall r :: i <= r < numRows ==> result[r] == 0
    {
      ghost var before := result;
      var lo, hi := rowPtr[i], rowPtr[i + 1];
      assert RangeReadable(colIdx, values, |v|, lo, hi);
      var j := lo;
      while j < hi
        invariant |result| == numRows && (lo <= j <= hi || j == lo)
        invariant result[i] == RangeDot(colIdx, values, v, lo, j)
        invariant forall r :: 0 <= r < numRows && r != i ==> result[r] == before[r]
      {
        assert lo <= j < hi;
        result := result[i := result[i] + values[j] * v[colIdx[j]]];
        j := j + 1;
      }
      i := i + 1;
    }
  }

  /**
   * The `spmv` kernel: for each row below `num_rows`, the products of the
   * row's range are added into `vector_out[row]`, which is not cleared
   * first. Row offsets are read as unsigned values.
   */
  method SpmvKernel(values: seq<int>, colIdx: seq<nat>, rowPtr: seq<nat>, vectorIn: seq<int>,
                    vectorOut: seq<int>, numRows: nat)
    returns (out: seq<int>)
    requires numRows < |rowPtr| && numRows <= |vectorOut|
    requires forall r :: 0 <= r < numRows ==> RangeReadable(colIdx, values, |vectorIn|, rowPtr[r], rowPtr[r + 1])
    ensures |out| == |vectorOut|
    ensures forall r :: 0 <= r < numRows ==>
              out[r] == vectorOut[r] + RangeDot(colIdx, values, vectorIn, rowPtr[r], rowPtr[r + 1])
    ensures forall r :: numRows <= r < |out| ==> out[r] == vectorOut[r]
    ensures forall r :: 0 <= r < numRows && rowPtr[r] == rowPtr[r + 1] ==> out[r] == vectorOut[r]
  {
    out := vectorOut;
    var row := 0;
    while row < numRows
      invariant row <= numRows && |out| == |vectorOut|
      invariant forall r :: 0 <= r < row ==>
                  out[r] == vectorOut[r] + RangeDot(colIdx, values, vectorIn, rowPtr[r], rowPtr[r + 1])
      invariant forall r :: row <= r < |out| ==> out[r] == vectorOut[r]
    {
      ghost var before := out;
      var start := rowPtr[row];
      var end := rowPtr[row + 1];
      assert RangeReadable(colIdx, values, |vectorIn|, start, end);
      var i := start;
      while i < end
        invariant |out| == |vectorOut| && (start <= i <= end || i == start)
        invariant out[row] == vectorOut[row] + RangeDot(colIdx, values, vectorIn, start, i)
        invariant forall r :: 0 <= r < |out| && r != row ==> out[r] == before[r]
      {
        assert start <= i < end;
        out := out[row := out[row] + values[i] * vectorIn[colIdx[i]]];
        i := i + 1;
      }
      row := row + 1;
    }
  }
}
