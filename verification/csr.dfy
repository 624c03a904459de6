/**
 * The row-compressed sparse matrix (`CSRMatrix`), its fill helpers and
 * `round_dim`, and the matrix-vector product every other module is measured
 * against.
 */
module Csr {
  import opened Errors

  /** One stored non-zero: its column index and its value. */
  datatype Entry = Entry(col: nat, val: int)

  /** `CSRMatrix`: `data` and `indices` run in parallel, `indptr` holds row offsets. */
  datatype CsrMatrix = CsrMatrix(
    numRows: nat,
    numCols: nat,
    data: seq<int>,
    indices: seq<nat>,
    indptr: seq<nat>)

  /** The row-compressed invariant: `numRows + 1` non-decreasing offsets from 0 to nnz. */
  predicate Valid(m: CsrMatrix) {
    && |m.indptr| == m.numRows + 1
    && m.indptr[0] == 0
    && m.indptr[m.numRows] == |m.data|
    && |m.indices| == |m.data|
    && (forall i, j :: 0 <= i <= j < |m.indptr| ==> m.indptr[i] <= m.indptr[j])
  }

  /** Every stored column index addresses a column of the matrix. */
  predicate ColsInRange(m: CsrMatrix) {
    forall i :: 0 <= i < |m.indices| ==> m.indices[i] < m.numCols
  }

  /** Every entry's column is below `n`. */
  predicate ColsBelow(es: seq<Entry>, n: nat) {
    forall i :: 0 <= i < |es| ==> es[i].col < n
  }

  /** The stored non-zeros in storage order. */
  function Entries(m: CsrMatrix): (es: seq<Entry>)
    requires |m.indices| == |m.data|
    ensures |es| == |m.data|
    ensures forall i :: 0 <= i < |es| ==> es[i] == Entry(m.indices[i], m.data[i])
  {
    seq(|m.data|, i requires 0 <= i < |m.data| => Entry(m.indices[i], m.data[i]))
  }

  /** The non-zeros of row `r`, in storage order. */
  function RowEntries(m: CsrMatrix, r: nat): seq<Entry>
    requires Valid(m) && r < m.numRows
  {
    Entries(m)[m.indptr[r]..m.indptr[r + 1]]
  }

  /** All rows of the matrix as entry lists. */
  function RowsOf(m: CsrMatrix): (rows: seq<seq<Entry>>)
    requires Valid(m)
    ensures |rows| == m.numRows
  {
    seq(m.numRows, r requires 0 <= r < m.numRows => RowEntries(m, r))
  }

  /** Concatenation of a list of rows, built from the back as the copy loops do. */
  function Flatten(rows: seq<seq<Entry>>): seq<Entry>
    decreases |rows|
  {
    if |rows| == 0 then [] else Flatten(rows[..|rows| - 1]) + rows[|rows| - 1]
  }

  function Vals(es: seq<Entry>): (vs: seq<int>)
    ensures |vs| == |es|
  {
    seq(|es|, i requires 0 <= i < |es| => es[i].val)
  }

  function Cols(es: seq<Entry>): (cs: seq<nat>)
    ensures |cs| == |es|
  {
    seq(|es|, i requires 0 <= i < |es| => es[i].col)
  }

  /**
   * A matrix assembled row by row: for each row its entries are pushed onto
   * `data`/`indices` and the running nnz onto `indptr`. This is the loop shape
   * shared by the tile builder and both host-side row partitioners.
   */
  function FromRows(numCols: nat, rows: seq<seq<Entry>>): (m: CsrMatrix)
    ensures Valid(m)
    ensures m.numRows == |rows| && m.numCols == numCols
    ensures |m.data| == |Flatten(rows)|
    decreases |rows|
  {
    if |rows| == 0 then CsrMatrix(0, numCols, [], [], [0])
    else
      var p := FromRows(numCols, rows[..|rows| - 1]);
      var last := rows[|rows| - 1];
      CsrMatrix(|rows|, numCols, p.data + Vals(last), p.indices + Cols(last),
                p.indptr + [|p.data| + |last|])
  }

  lemma {:induction false} FlattenAppend(a: seq<seq<Entry>>, b: seq<seq<Entry>>)
    ensures Flatten(a + b) == Flatten(a) + Flatten(b)
    decreases |b|
  {
    if |b| == 0 {
      assert a + b == a;
    } else {
      calc {
        Flatten(a + b);
        { assert (a + b)[..|a + b| - 1] == a + b[..|b| - 1]; }
        Flatten(a + b[..|b| - 1]) + b[|b| - 1];
        { FlattenAppend(a, b[..|b| - 1]); }
        Flatten(a) + Flatten(b[..|b| - 1]) + b[|b| - 1];
      }
    }
  }

  /** The stored non-zeros of an assembled matrix are its rows laid end to end. */
  lemma {:induction false} FromRowsEntries(numCols: nat, rows: seq<seq<Entry>>)
    ensures Entries(FromRows(numCols, rows)) == Flatten(rows)
    decreases |rows|
  {
    if |rows| > 0 {
      var p := FromRows(numCols, rows[..|rows| - 1]);
      FromRowsEntries(numCols, rows[..|rows| - 1]);
      var m := FromRows(numCols, rows);
      var last := rows[|rows| - 1];
      assert Entries(m) == Entries(p) + last by {
        forall i | 0 <= i < |Entries(m)| ensures Entries(m)[i] == (Entries(p) + last)[i] {
          if i >= |p.data| {
            assert m.data[i] == Vals(last)[i - |p.data|];
            assert m.indices[i] == Cols(last)[i - |p.data|];
          }
        }
      }
    }
  }

  /** Offset `k` of an assembled matrix counts the entries of the rows before `k`. */
  lemma {:induction false} FromRowsIndptr(numCols: nat, rows: seq<seq<Entry>>, k: nat)
    requires k <= |rows|
    ensures FromRows(numCols, rows).indptr[k] == |Flatten(rows[..k])|
    decreases |rows|
  {
    var m := FromRows(numCols, rows);
    if k == |rows| {
      assert rows[..k] == rows;
    } else {
      var init := rows[..|rows| - 1];
      FromRowsIndptr(numCols, init, k);
      assert init[..k] == rows[..k];
    }
  }

  /**
   * Assembly is faithful: row `k` of the assembled matrix is exactly the
   * `k`-th row handed in, in the same order.
   */
  lemma FromRowsRow(numCols: nat, rows: seq<seq<Entry>>, k: nat)
    requires k < |rows|
    ensures RowEntries(FromRows(numCols, rows), k) == rows[k]
  {
    var m := FromRows(numCols, rows);
    FromRowsEntries(numCols, rows);
    FromRowsIndptr(numCols, rows, k);
    FromRowsIndptr(numCols, rows, k + 1);
    assert rows[..k + 1] == rows[..k] + [rows[k]];
    FlattenAppend(rows[..k], [rows[k]]);
    assert Flatten([rows[k]]) == rows[k] by {
      assert [rows[k]][..0] == [];
    }
    assert rows == rows[..k + 1] + rows[k + 1..];
    FlattenAppend(rows[..k + 1], rows[k + 1..]);
  }

  /** Rows of `m` before `k`, laid end to end, are the first `indptr[k]` entries. */
  lemma {:induction false} FlattenRowsPrefix(m: CsrMatrix, k: nat)
    requires Valid(m) && k <= m.numRows
    ensures Flatten(RowsOf(m)[..k]) == Entries(m)[..m.indptr[k]]
    decreases k
  {
    if k > 0 {
      FlattenRowsPrefix(m, k - 1);
      assert RowsOf(m)[..k][..k - 1] == RowsOf(m)[..k - 1];
      assert m.indptr[k - 1] <= m.indptr[k];
    }
  }

  /** Splitting a valid matrix into rows and reassembling them gives the matrix back. */
  lemma RowsRoundTrip(m: CsrMatrix)
    requires Valid(m)
    ensures FromRows(m.numCols, RowsOf(m)) == m
  {
    var a := FromRows(m.numCols, RowsOf(m));
    FlattenRowsPrefix(m, m.numRows);
    assert RowsOf(m)[..m.numRows] == RowsOf(m);
    FromRowsEntries(m.numCols, RowsOf(m));
    assert Entries(a) == Entries(m);
    assert a.data == m.data by {
      forall i | 0 <= i < |a.data| ensures a.data[i] == m.data[i] {
        assert Entries(a)[i] == Entries(m)[i];
      }
    }
    assert a.indices == m.indices by {
      forall i | 0 <= i < |a.indices| ensures a.indices[i] == m.indices[i] {
        assert Entries(a)[i] == Entries(m)[i];
      }
    }
    assert a.indptr == m.indptr by {
      forall k | 0 <= k <= m.numRows ensures a.indptr[k] == m.indptr[k] {
        FromRowsIndptr(m.numCols, RowsOf(m), k);
        FlattenRowsPrefix(m, k);
      }
    }
  }

  //-------------------------------------------------------------------------
  // The matrix-vector product
  //-------------------------------------------------------------------------

  /** Sum of `val * v[col]` over `es`, accumulated left to right. */
  function Dot(es: seq<Entry>, v: seq<int>): int
    requires ColsBelow(es, |v|)
    decreases |es|
  {
    if |es| == 0 then 0
    else Dot(es[..|es| - 1], v) + es[|es| - 1].val * v[es[|es| - 1].col]
  }

  lemma {:induction false} DotAppend(a: seq<Entry>, b: seq<Entry>, v: seq<int>)
    requires ColsBelow(a, |v|) && ColsBelow(b, |v|)
    ensures ColsBelow(a + b, |v|)
    ensures Dot(a + b, v) == Dot(a, v) + Dot(b, v)
    decreases |b|
  {
    if |b| > 0 {
      assert (a + b)[..|a + b| - 1] == a + b[..|b| - 1];
      DotAppend(a, b[..|b| - 1], v);
    } else {
      assert a + b == a;
    }
  }

  /** Row `r`'s non-zeros lie in `v`'s range whenever every stored index does. */
  lemma RowColsBelow(m: CsrMatrix, r: nat, n: nat)
    requires Valid(m) && r < m.numRows
    requires forall i :: 0 <= i < |m.indices| ==> m.indices[i] < n
    ensures ColsBelow(RowEntries(m, r), n)
  {
    assert m.indptr[r] <= m.indptr[r + 1] <= m.indptr[m.numRows];
  }

  /** Every stored column index is below `n`. */
  predicate IndicesBelow(m: CsrMatrix, n: nat) {
    forall i :: 0 <= i < |m.indices| ==> m.indices[i] < n
  }

  /** The dot product of row `r` with `v`. */
  function RowDot(m: CsrMatrix, r: nat, v: seq<int>): int
    requires Valid(m) && r < m.numRows && IndicesBelow(m, |v|)
  {
    RowColsBelow(m, r, |v|);
    Dot(RowEntries(m, r), v)
  }

  /** The sparse matrix-vector product `m * v`, one dot product per row. */
  function SpMV(m: CsrMatrix, v: seq<int>): (y: seq<int>)
    requires Valid(m) && IndicesBelow(m, |v|)
    ensures |y| == m.numRows
  {
    seq(m.numRows, r requires 0 <= r < m.numRows => RowDot(m, r, v))
  }

  //-------------------------------------------------------------------------
  // Constructors and fill helpers
  //-------------------------------------------------------------------------

  /** `CSRMatrix(num_rows, num_cols)`: no non-zeros, `num_rows + 1` zero offsets. */
  function Empty(numRows: nat, numCols: nat): (m: CsrMatrix)
    ensures Valid(m) && m.numRows == numRows && m.numCols == numCols
    ensures |m.data| == 0
    ensures forall r :: 0 <= r < numRows ==> RowEntries(m, r) == []
  {
    CsrMatrix(numRows, numCols, [], [], seq(numRows + 1, _ => 0))
  }

  lemma MulMonotone(a: nat, b: nat, d: nat)
    requires a <= b
    ensures a * d <= b * d
  {}

  /** Column of the `j`-th entry of row `i` in `uniform_fill`. */
  function UniformCol(i: nat, j: nat, avgDegree: nat, numCols: nat): (c: nat)
    requires avgDegree > 0 && numCols > 0
    ensures c < numCols
  {
    ((i % avgDegree) + j * (numCols / avgDegree)) % numCols
  }

  lemma DivModUnique(k: nat, d: nat, i: nat, j: nat)
    requires d > 0 && j < d && k == i * d + j
    ensures k / d == i && k % d == j
  {
    var q := k / d;
    var rem := k % d;
    assert k == q * d + rem && 0 <= rem < d;
    assert (i + 1) * d == i * d + d;
    assert (q + 1) * d == q * d + d;
    if q > i {
      MulMonotone(i + 1, q, d);
    } else if q < i {
      MulMonotone(q + 1, i, d);
    }
  }

  /** A number below `d * n` has quotient below `n`. */
  lemma DivBelow(r: nat, d: nat, n: nat)
    requires d > 0 && r < d * n
    ensures r / d < n
  {
    if r / d >= n {
      MulMonotone(n, r / d, d);
    }
  }

  /**
   * Position `r` of words `2 * d` wide, against rows of width `d`: the lower
   * half of word `i` is row `2 * i`, the upper half row `2 * i + 1`.
   */
  lemma RowOfSlot(r: nat, d: nat)
    requires d > 0
    ensures r % (2 * d) < d ==> r / d == 2 * (r / (2 * d)) && r % d == r % (2 * d)
    ensures r % (2 * d) >= d ==> r / d == 2 * (r / (2 * d)) + 1 && r % d == r % (2 * d) - d
  {
    var w := 2 * d;
    var i := r / w;
    var s := r % w;
    assert r == i * w + s;
    assert i * w == (2 * i) * d by { assert i * (2 * d) == (2 * i) * d; }
    if s < d {
      DivModUnique(r, d, 2 * i, s);
    } else {
      var j := 2 * i + 1;
      assert j * d == (2 * i) * d + d;
      assert r == j * d + (s - d);
      DivModUnique(r, d, j, s - d);
    }
  }

  lemma FixedDegreeValid(r: CsrMatrix, d: nat)
    requires |r.data| == |r.indices| == r.numRows * d
    requires r.indptr == seq(r.numRows + 1, i requires 0 <= i => i * d)
    ensures Valid(r)
  {
    forall i, j | 0 <= i <= j < |r.indptr| ensures r.indptr[i] <= r.indptr[j] {
      MulMonotone(i, j, d);
    }
  }

  /** Row `i` of an offsets-`i * d` layout is the `d` entries from flat position `i * d`. */
  lemma FixedDegreeRow(r: CsrMatrix, d: nat, i: nat)
    requires Valid(r) && i < r.numRows
    requires |r.data| == |r.indices| == r.numRows * d
    requires r.indptr == seq(r.numRows + 1, i requires 0 <= i => i * d)
    ensures |RowEntries(r, i)| == d
    ensures forall j :: 0 <= j < d ==> i * d + j < |r.data| && RowEntries(r, i)[j] == Entries(r)[i * d + j]
  {
    assert r.indptr[i] == i * d;
    assert r.indptr[i + 1] == (i + 1) * d == i * d + d;
    MulMonotone(i + 1, r.numRows, d);
  }

  /** The entry at flat position `i * d + j` of a fixed-degree layout is row `i`, slot `j`. */
  lemma FlatPosition(i: nat, j: nat, d: nat)
    requires j < d
    ensures (i * d + j) / d == i && (i * d + j) % d == j
  {
    DivModUnique(i * d + j, d, i, j);
  }

  /**
   * `uniform_fill(avg_degree, val)`: every row gets exactly `avg_degree`
   * entries of value `val`, the `j`-th one at column
   * `((i % avg_degree) + j * (num_cols / avg_degree)) % num_cols`.
   * Whatever the matrix held before is overwritten.
   */
  function UniformFill(m: CsrMatrix, avgDegree: nat, val: int): (r: CsrMatrix)
    requires avgDegree > 0
    requires m.numRows == 0 || m.numCols > 0
    ensures Valid(r) && ColsInRange(r)
    ensures r.numRows == m.numRows && r.numCols == m.numCols
    ensures forall i :: 0 <= i < r.numRows ==> |RowEntries(r, i)| == avgDegree
    ensures forall i, j :: 0 <= i < r.numRows && 0 <= j < avgDegree ==>
              RowEntries(r, i)[j] == Entry(UniformCol(i, j, avgDegree, m.numCols), val)
  {
    if m.numRows == 0 then CsrMatrix(0, m.numCols, [], [], [0])
    else
      var n := m.numRows * avgDegree;
      var idx := seq(n, k requires 0 <= k < n =>
                       UniformCol(k / avgDegree, k % avgDegree, avgDegree, m.numCols));
      var r := CsrMatrix(m.numRows, m.numCols, seq(n, _ => val), idx,
                         seq(m.numRows + 1, i requires 0 <= i => i * avgDegree));
      UniformFillRows(r, avgDegree, val);
      r
  }

  lemma UniformFillRows(r: CsrMatrix, d: nat, val: int)
    requires d > 0 && r.numCols > 0
    requires r.data == seq(r.numRows * d, _ => val)
    requires r.indices == seq(r.numRows * d, k requires 0 <= k < r.numRows * d =>
                                UniformCol(k / d, k % d, d, r.numCols))
    requires r.indptr == seq(r.numRows + 1, i requires 0 <= i => i * d)
    ensures Valid(r) && ColsInRange(r)
    ensures forall i :: 0 <= i < r.numRows ==> |RowEntries(r, i)| == d
    ensures forall i, j :: 0 <= i < r.numRows && 0 <= j < d ==>
              RowEntries(r, i)[j] == Entry(UniformCol(i, j, d, r.numCols), val)
  {
    FixedDegreeValid(r, d);
    forall i | 0 <= i < r.numRows
      ensures |RowEntries(r, i)| == d
    {
      FixedDegreeRow(r, d, i);
    }
    forall i, j | 0 <= i < r.numRows && 0 <= j < d
      ensures RowEntries(r, i)[j] == Entry(UniformCol(i, j, d, r.numCols), val)
    {
      FixedDegreeRow(r, d, i);
      FlatPosition(i, j, d);
    }
  }

  /**
   * `dense_fill(val)`: every row holds every column `0 .. num_cols - 1` in
   * order, all with value `val`. The offsets array is regenerated in place at
   * its existing length, so the result is a valid matrix exactly when
   * `indptr` already had `num_rows + 1` slots.
   */
  function DenseFill(m: CsrMatrix, val: int): (r: CsrMatrix)
    ensures r.numRows == m.numRows && r.numCols == m.numCols
    ensures |r.indptr| == |m.indptr|
    ensures |m.indptr| == m.numRows + 1 ==> Valid(r) && ColsInRange(r)
    ensures |m.indptr| == m.numRows + 1 ==>
              forall i :: 0 <= i < r.numRows ==>
                RowEntries(r, i) == seq(m.numCols, c requires 0 <= c => Entry(c, val))
  {
    var n := m.numRows * m.numCols;
    var idx := seq(n, k requires 0 <= k => DenseCol(k, m.numCols));
    var r := CsrMatrix(m.numRows, m.numCols, seq(n, _ => val), idx,
                       seq(|m.indptr|, i requires 0 <= i => i * m.numCols));
    if |m.indptr| == m.numRows + 1 then
      DenseFillRows(r, val);
      r
    else r
  }

  /** Column of flat position `k` in a dense fill: `k % num_cols`. */
  function DenseCol(k: nat, numCols: nat): (c: nat)
    ensures numCols > 0 ==> c < numCols
  {
    if numCols == 0 then 0 else k % numCols
  }

  lemma DenseFillRows(r: CsrMatrix, val: int)
    requires r.data == seq(r.numRows * r.numCols, _ => val)
    requires r.indices == seq(r.numRows * r.numCols, k requires 0 <= k => DenseCol(k, r.numCols))
    requires r.indptr == seq(r.numRows + 1, i requires 0 <= i => i * r.numCols)
    ensures Valid(r) && ColsInRange(r)
    ensures forall i :: 0 <= i < r.numRows ==>
              RowEntries(r, i) == seq(r.numCols, c requires 0 <= c => Entry(c, val))
  {
    FixedDegreeValid(r, r.numCols);
    if r.numCols == 0 {
      assert r.numRows * r.numCols == 0;
    }
    forall i | 0 <= i < r.numRows
      ensures RowEntries(r, i) == seq(r.numCols, c requires 0 <= c => Entry(c, val))
    {
      FixedDegreeRow(r, r.numCols, i);
      forall c | 0 <= c < r.numCols ensures RowEntries(r, i)[c] == Entry(c, val) {
        FlatPosition(i, c, r.numCols);
      }
    }
  }

  //-------------------------------------------------------------------------
  // round_dim
  //-------------------------------------------------------------------------

  /** The least multiple of `d` that is at least `x`, computed as the source does. */
  function RoundUp(x: nat, d: nat): (y: nat)
    requires d > 0
    ensures y % d == 0 && x <= y < x + d
  {
    var q := (x + d - 1) / d;
    assert q * d <= x + d - 1 < q * d + d by {
      var rem := (x + d - 1) % d;
      assert x + d - 1 == q * d + rem && 0 <= rem < d;
    }
    DivModUnique(q * d, d, q, 0);
    q * d
  }

  /** `std::vector::resize(n, fill)`: truncate, or pad with `fill`. */
  function Resize<T>(s: seq<T>, n: nat, fill: T): (r: seq<T>)
    ensures |r| == n
    ensures forall i :: 0 <= i < n && i < |s| ==> r[i] == s[i]
    ensures forall i :: |s| <= i < n ==> r[i] == fill
  {
    if n <= |s| then s[..n] else s + seq(n - |s|, _ => fill)
  }

  /**
   * `round_dim` exactly as written: when rows are padded, `indptr` is resized
   * to `new_num_rows` slots, one fewer than a matrix of that many rows needs.
   * Both remainders are taken unchecked, so a zero divisor divides by zero,
   * and padding rows reads `indptr[num_rows]`, which a short `indptr` lacks.
   */
  function RoundDimAsWritten(m: CsrMatrix, rowDivisor: nat, colDivisor: nat): (r: Result<CsrMatrix>)
    ensures r.Err? <==> || rowDivisor == 0 || colDivisor == 0
                        || (m.numRows % rowDivisor != 0 && |m.indptr| <= m.numRows)
    ensures rowDivisor == 0 ==> r == Err(DivisionByZero)
    ensures rowDivisor > 0 && m.numRows % rowDivisor != 0 && |m.indptr| <= m.numRows ==> r == Err(OutOfBounds)
    ensures r.Ok? ==> var t := r.value;
              && t.data == m.data && t.indices == m.indices
              && t.numRows % rowDivisor == 0 && m.numRows <= t.numRows < m.numRows + rowDivisor
              && t.numCols % colDivisor == 0 && m.numCols <= t.numCols < m.numCols + colDivisor
              && (m.numRows % rowDivisor != 0 ==>
                    && |t.indptr| == t.numRows
                    && forall i :: 0 <= i < t.numRows ==>
                         t.indptr[i] == if i < |m.indptr| then m.indptr[i] else m.indptr[m.numRows])
              && (m.numRows % rowDivisor == 0 ==> t.numRows == m.numRows && t.indptr == m.indptr)
  {
    if rowDivisor == 0 then Err(DivisionByZero)
    else if m.numRows % rowDivisor != 0 && |m.indptr| <= m.numRows then Err(OutOfBounds)
    else
      var rows := if m.numRows % rowDivisor != 0 then RoundUp(m.numRows, rowDivisor) else m.numRows;
      var ptr := if m.numRows % rowDivisor != 0
                 then Resize(m.indptr, rows, m.indptr[m.numRows]) else m.indptr;
      if colDivisor == 0 then Err(DivisionByZero)
      else
        var cols := if m.numCols % colDivisor != 0 then RoundUp(m.numCols, colDivisor) else m.numCols;
        Ok(CsrMatrix(rows, cols, m.data, m.indices, ptr))
  }

  /**
   * The defect of the code as written: rounding a 1x1 matrix to a row
   * multiple of 2 yields a 2-row matrix with only 2 offsets.
   */
  lemma RoundDimAsWrittenBreaksInvariant()
    ensures var m := Empty(1, 1);
            var r := RoundDimAsWritten(m, 2, 1);
            Valid(m) && r.Ok? && r.value.numRows == 2 && !Valid(r.value)
  {
    var r := RoundDimAsWritten(Empty(1, 1), 2, 1);
    assert |r.value.indptr| == 2;
  }

  /**
   * `round_dim` as intended: pads with empty rows (offsets `num_rows + 1`
   * long, the new ones all equal to nnz) and widens the column count; the
   * non-zeros are untouched.
   */
  function RoundDim(m: CsrMatrix, rowDivisor: nat, colDivisor: nat): (r: CsrMatrix)
    requires rowDivisor > 0 && colDivisor > 0
    requires Valid(m)
    ensures Valid(r)
    ensures r.data == m.data && r.indices == m.indices
    ensures r.numRows % rowDivisor == 0 && m.numRows <= r.numRows < m.numRows + rowDivisor
    ensures r.numCols % colDivisor == 0 && m.numCols <= r.numCols < m.numCols + colDivisor
    ensures forall i :: 0 <= i < m.numRows ==> RowEntries(r, i) == RowEntries(m, i)
    ensures forall i :: m.numRows <= i < r.numRows ==> RowEntries(r, i) == []
  {
    var rows := if m.numRows % rowDivisor != 0 then RoundUp(m.numRows, rowDivisor) else m.numRows;
    var ptr := Resize(m.indptr, rows + 1, m.indptr[m.numRows]);
    var cols := if m.numCols % colDivisor != 0 then RoundUp(m.numCols, colDivisor) else m.numCols;
    CsrMatrix(rows, cols, m.data, m.indices, ptr)
  }

  /** Rounding twice changes nothing more than rounding once. */
  lemma RoundDimIdempotent(m: CsrMatrix, rowDivisor: nat, colDivisor: nat)
    requires rowDivisor > 0 && colDivisor > 0 && Valid(m)
    ensures RoundDim(RoundDim(m, rowDivisor, colDivisor), rowDivisor, colDivisor)
            == RoundDim(m, rowDivisor, colDivisor)
  {
    var r := RoundDim(m, rowDivisor, colDivisor);
    var rr := RoundDim(r, rowDivisor, colDivisor);
    assert rr.indptr == r.indptr;
  }

  /** Padding rows adds zero entries to the product and keeps every old row's value. */
  lemma RoundDimPreservesProduct(m: CsrMatrix, rowDivisor: nat, colDivisor: nat, v: seq<int>)
    requires rowDivisor > 0 && colDivisor > 0 && Valid(m) && IndicesBelow(m, |v|)
    ensures var r := RoundDim(m, rowDivisor, colDivisor);
            IndicesBelow(r, |v|) &&
            SpMV(r, v) == SpMV(m, v) + seq(r.numRows - m.numRows, _ => 0)
  {
    var r := RoundDim(m, rowDivisor, colDivisor);
    var ys := SpMV(m, v) + seq(r.numRows - m.numRows, _ => 0);
    forall i | 0 <= i < r.numRows ensures SpMV(r, v)[i] == ys[i] {
      if i < m.numRows {
        assert RowEntries(r, i) == RowEntries(m, i);
      } else {
        assert RowEntries(r, i) == [];
      }
    }
  }

  //-------------------------------------------------------------------------
  // rand_incr
  //-------------------------------------------------------------------------

  predicate StrictlyIncreasing(s: seq<nat>) {
    forall i, j :: 0 <= i < j < |s| ==> s[i] < s[j]
  }

  predicate Distinct(s: seq<nat>) {
    forall i, j :: 0 <= i < j < |s| ==> s[i] != s[j]
  }

  /** Insert `x` into a strictly increasing sequence that does not hold it. */
  function Insert(x: nat, s: seq<nat>): (r: seq<nat>)
    requires StrictlyIncreasing(s) && x !in s
    ensures StrictlyIncreasing(r)
    ensures multiset(r) == multiset(s) + multiset{x}
    decreases |s|
  {
    if |s| == 0 then [x]
    else if x < s[0] then
      ConsIncreasing(x, s);
      [x] + s
    else
      var t := Insert(x, s[1..]);
      assert s == [s[0]] + s[1..];
      InsertHeadBelow(x, s, t);
      ConsIncreasing(s[0], t);
      [s[0]] + t
  }

  lemma ConsIncreasing(h: nat, t: seq<nat>)
    requires StrictlyIncreasing(t) && forall i :: 0 <= i < |t| ==> h < t[i]
    ensures StrictlyIncreasing([h] + t)
  {
    var r := [h] + t;
    forall i, j | 0 <= i < j < |r| ensures r[i] < r[j] {
      if i > 0 {
        assert r[i] == t[i - 1] && r[j] == t[j - 1];
      }
    }
  }

  lemma InsertHeadBelow(x: nat, s: seq<nat>, t: seq<nat>)
    requires StrictlyIncreasing(s) && |s| > 0 && x !in s && s[0] < x
    requires multiset(t) == multiset(s[1..]) + multiset{x}
    ensures forall i :: 0 <= i < |t| ==> s[0] < t[i]
  {
    forall i | 0 <= i < |t| ensures s[0] < t[i] {
      assert t[i] in multiset(t);
      if t[i] != x {
        assert t[i] in multiset(s[1..]);
        assert t[i] in s[1..];
      }
    }
  }

  /** `std::sort` of distinct values: the same values in strictly increasing order. */
  function SortDistinct(s: seq<nat>): (r: seq<nat>)
    requires Distinct(s)
    ensures StrictlyIncreasing(r)
    ensures multiset(r) == multiset(s)
    decreases |s|
  {
    if |s| == 0 then []
    else
      var init := s[..|s| - 1];
      var t := SortDistinct(init);
      assert s == init + [s[|s| - 1]];
      assert s[|s| - 1] !in init;
      assert s[|s| - 1] !in multiset(t);
      Insert(s[|s| - 1], t)
  }

  /**
   * `rand_incr(min, max, len)`. The retry loop's accepted draws are the
   * parameter `draws` (distinct, in `[min, max)`); the result is those draws
   * sorted. Asking for more values than the range holds is rejected.
   */
  function RandIncr(min: nat, max: nat, len: nat, draws: seq<nat>): (r: Result<seq<nat>>)
    requires min <= max
    requires len <= max - min ==>
               |draws| == len && Distinct(draws) &&
               forall i :: 0 <= i < |draws| ==> min <= draws[i] < max
    ensures r.Err? <==> len > max - min
    ensures r.Err? ==> r.error == InvalidArgument("random range too small")
    ensures r.Ok? ==> |r.value| == len && StrictlyIncreasing(r.value)
    ensures r.Ok? ==> forall i :: 0 <= i < |r.value| ==> min <= r.value[i] < max
    ensures r.Ok? ==> multiset(r.value) == multiset(draws)
  {
    if len > max - min then Err(InvalidArgument("random range too small"))
    else
      var s := SortDistinct(draws);
      assert |s| == |multiset(s)| == |multiset(draws)| == |draws|;
      assert forall i :: 0 <= i < |s| ==> min <= s[i] < max by {
        forall i | 0 <= i < |s| ensures min <= s[i] < max {
          assert s[i] in multiset(draws);
        }
      }
      Ok(s)
  }
}
