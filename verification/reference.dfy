/**
 * The host-side reference logic of the SpMV examples: the ground-truth
 * product `compute_ref` and its iterated ping-pong form, the result checker
 * `check_buffer`, and the two ways of cutting a matrix into row blocks for
 * several devices (`partitionMatrixIn2`, `partitionRows`). The host's `int`
 * arithmetic is modelled unbounded: overflowing it is undefined behaviour
 * in C++, which the examples do not guard against.
 */
module Reference {
  import opened Errors
  import opened Csr

  // ---------------------------------------------------------------------------
  // compute_ref
  // ---------------------------------------------------------------------------

  /** The next entry of a row extends its dot product by one term. */
  lemma DotStep(es: seq<Entry>, k: nat, v: seq<int>)
    requires k < |es| && ColsBelow(es, |v|)
    ensures ColsBelow(es[..k], |v|) && ColsBelow(es[..k + 1], |v|)
    ensures Dot(es[..k + 1], v) == Dot(es[..k], v) + es[k].val * v[es[k].col]
  {
    assert es[..k + 1][..k] == es[..k];
  }

  /** The inner loop of `compute_ref`: each of row `row`'s non-zeros adds its product into `ref[row]`. */
  method AddRow(m: CsrMatrix, v: seq<int>, row: nat, ref: seq<int>) returns (out: seq<int>)
    requires Valid(m) && IndicesBelow(m, |v|) && row < m.numRows && |ref| == m.numRows
    ensures |out| == |ref| && out[row] == ref[row] + RowDot(m, row, v)
    ensures forall r :: 0 <= r < |ref| && r != row ==> out[r] == ref[r]
  {
    var start := m.indptr[row];
    var end := m.indptr[row + 1];
    assert start <= end <= |m.data|;
    var es := RowEntries(m, row);
    RowColsBelow(m, row, |v|);
    out := ref;
    var i := start;
    while i < end
      invariant start <= i <= end && |out| == m.numRows
      invariant out[row] == ref[row] + Dot(es[..i - start], v)
      invariant forall r :: 0 <= r < m.numRows && r != row ==> out[r] == ref[r]
    {
      DotStep(es, i - start, v);
      assert es[i - start] == Entry(m.indices[i], m.data[i]);
      out := out[row := out[row] + m.data[i] * v[m.indices[i]]];
      i := i + 1;
    }
    assert es[..end - start] == es;
  }

  /**
   * `compute_ref`: the result is resized to `num_rows` and zeroed, then row
   * by row each stored non-zero adds `data[i] * vector[indices[i]]` to its
   * row. It is the row-by-row dot product.
   */
  method ComputeRef(m: CsrMatrix, v: seq<int>) returns (ref: seq<int>)
    requires Valid(m) && IndicesBelow(m, |v|)
    ensures |ref| == m.numRows
    ensures forall r :: 0 <= r < m.numRows ==> ref[r] == Dot(RowEntries(m, r), v)
    ensures ref == SpMV(m, v)
  {
    ref := seq(m.numRows, _ => 0);
    var row := 0;
    while row < m.numRows
      invariant row <= m.numRows && |ref| == m.numRows
      invariant forall r :: 0 <= r < row ==> ref[r] == RowDot(m, r, v)
      invariant forall r :: row <= r < m.numRows ==> ref[r] == 0
    {
      ref := AddRow(m, v, row, ref);
      row := row + 1;
    }
  }

  /**
   * What `n` products need: the first reads `v`, and every later one reads
   * the previous result, which has `num_rows` entries.
   */
  predicate Iterable(m: CsrMatrix, v: seq<int>, n: nat) {
    Valid(m) && (n >= 1 ==> IndicesBelow(m, |v|)) && (n >= 2 ==> IndicesBelow(m, m.numRows))
  }

  /** `m` applied `n` times to `v`. */
  function Iterate(m: CsrMatrix, v: seq<int>, n: nat): (r: seq<int>)
    requires Iterable(m, v, n)
    ensures n > 0 ==> |r| == m.numRows
    decreases n
  {
    if n == 0 then v else SpMV(m, Iterate(m, v, n - 1))
  }

  /** Applying `m` `a` times and then `b` times is applying it `a + b` times. */
  lemma {:induction false} IterateCompose(m: CsrMatrix, v: seq<int>, a: nat, b: nat)
    requires Iterable(m, v, a + b)
    ensures Iterable(m, v, a) && Iterable(m, Iterate(m, v, a), b)
    ensures Iterate(m, Iterate(m, v, a), b) == Iterate(m, v, a + b)
    decreases b
  {
    IterableSplit(m, v, a, b);
    if b > 0 {
      var w := Iterate(m, v, a);
      IterateCompose(m, v, a, b - 1);
      IterateStep(m, w, b);
      IterateStep(m, v, a + b);
    }
  }

  /** The products of a longer run accept a shorter run, and the run after its first `a` products. */
  lemma IterableSplit(m: CsrMatrix, v: seq<int>, a: nat, b: nat)
    requires Iterable(m, v, a + b)
    ensures Iterable(m, v, a) && Iterable(m, Iterate(m, v, a), b)
  {
    if a > 0 {
      assert |Iterate(m, v, a)| == m.numRows;
    }
  }

  /** The last of `n > 0` products applies `m` to the result of the first `n - 1`. */
  lemma IterateStep(m: CsrMatrix, v: seq<int>, n: nat)
    requires Iterable(m, v, n) && n > 0
    ensures Iterable(m, v, n - 1)
    ensures IndicesBelow(m, |Iterate(m, v, n - 1)|)
    ensures Iterate(m, v, n) == SpMV(m, Iterate(m, v, n - 1))
  {
  }

  /** One `compute_ref` call into the other buffer: the product, nothing more. */
  method Apply(m: CsrMatrix, v: seq<int>) returns (y: seq<int>)
    requires Valid(m) && IndicesBelow(m, |v|)
    ensures |y| == m.numRows && y == SpMV(m, v)
  {
    y := ComputeRef(m, v);
  }

  /** Consecutive numbers have opposite parity. */
  lemma NextParity(i: nat)
    ensures (i + 1) % 2 == 1 - i % 2
  {
  }

  /**
   * `std::vector::resize(n)`: the first `n` entries are kept and the vector
   * is padded with zeros.
   */
  function Resize(xs: seq<int>, n: nat): (ys: seq<int>)
    ensures |ys| == n
    ensures forall i :: 0 <= i < n ==> ys[i] == if i < |xs| then xs[i] else 0
  {
    if n <= |xs| then xs[..n] else xs + seq(n - |xs|, _ => 0)
  }

  /**
   * The ping-pong loop of iterated `compute_ref`: the product is applied
   * `iterations` times, alternating between two buffers; the buffer written
   * last holds the result.
   */
  method PingPong(m: CsrMatrix, v: seq<int>, iterations: nat) returns (last: seq<int>)
    requires Iterable(m, v, iterations)
    ensures last == Iterate(m, v, iterations)
  {
    var vec0 := v;
    var vec1 := seq(|v|, _ => 0);
    var i := 0;
    while i < iterations
      invariant i <= iterations
      invariant i % 2 == 0 ==> vec0 == Iterate(m, v, i)
      invariant i % 2 == 1 ==> vec1 == Iterate(m, v, i)
    {
      IterableSplit(m, v, i + 1, iterations - (i + 1));
      IterateStep(m, v, i + 1);
      NextParity(i);
      if i % 2 == 0 {
        vec1 := Apply(m, vec0);
      } else {
        vec0 := Apply(m, vec1);
      }
      i := i + 1;
    }
    last := if iterations % 2 == 0 then vec0 else vec1;
  }

  /**
   * Iterated `compute_ref`: the ping-pong result is copied over
   * `ref_result`, which was first resized to `num_rows` from its previous
   * contents `refInit`. After at least one product the copy is the result;
   * with none it is the input vector, which overruns `ref_result` when it is
   * longer than `num_rows` and otherwise leaves the rest of it.
   */
  method ComputeRefIterated(m: CsrMatrix, v: seq<int>, iterations: nat, refInit: seq<int>)
    returns (r: Result<seq<int>>)
    requires Iterable(m, v, iterations)
    ensures iterations > 0 ==> r == Ok(Iterate(m, v, iterations))
    ensures r.Err? <==> iterations == 0 && |v| > m.numRows
    ensures r.Err? ==> r.error == OutOfBounds
    ensures r.Ok? ==> |r.value| == m.numRows
    ensures iterations == 0 && r.Ok? ==>
              && r.value[..|v|] == v
              && forall i :: |v| <= i < m.numRows ==> r.value[i] == if i < |refInit| then refInit[i] else 0
  {
    var last := PingPong(m, v, iterations);
    var out := Resize(refInit, m.numRows);
    if |last| > |out| {
      return Err(OutOfBounds);
    }
    if iterations > 0 {
      assert last + out[|last|..] == last;
    }
    return Ok(last + out[|last|..]);
  }

  // ---------------------------------------------------------------------------
  // check_buffer
  // ---------------------------------------------------------------------------

  /**
   * `check_buffer` (and its twin `check_aligned_vector`): false on a length
   * mismatch, otherwise true exactly when every element matches. Stopping
   * at the first mismatch changes only how much is reported.
   */
  method CheckBuffer(v: seq<int>, ref: seq<int>, stopOnMismatch: bool) returns (ok: bool)
    ensures |v| != |ref| ==> !ok
    ensures ok <==> v == ref
  {
    if |v| != |ref| {
      return false;
    }
    var matched := true;
    var i := 0;
    while i < |v|
      invariant i <= |v|
      invariant matched <==> v[..i] == ref[..i]
    {
      if v[i] != ref[i] {
        if stopOnMismatch {
          assert v[..i + 1] != ref[..i + 1];
          return false;
        }
        matched := false;
      }
      assert v[..i + 1] == v[..i] + [v[i]] && ref[..i + 1] == ref[..i] + [ref[i]];
      i := i + 1;
    }
    assert v[..i] == v && ref[..i] == ref;
    return matched;
  }

  // ---------------------------------------------------------------------------
  // Row blocks
  // ---------------------------------------------------------------------------

  /**
   * Rows `start .. start + count` of `m` copied out as a matrix of their
   * own: each row's entries pushed in order, the running count after each
   * row, `num_cols` kept.
   */
  function RowBlock(m: CsrMatrix, start: nat, count: nat): (b: CsrMatrix)
    requires Valid(m) && start + count <= m.numRows
    ensures Valid(b) && b.numRows == count && b.numCols == m.numCols
  {
    FromRows(m.numCols, RowsOf(m)[start..start + count])
  }

  /** Row `k` of a block is row `start + k` of the matrix. */
  lemma RowBlockRows(m: CsrMatrix, start: nat, count: nat, k: nat)
    requires Valid(m) && start + count <= m.numRows && k < count
    ensures RowEntries(RowBlock(m, start, count), k) == RowEntries(m, start + k)
  {
    var rows := RowsOf(m)[start..start + count];
    assert RowBlock(m, start, count) == FromRows(m.numCols, rows);
    FromRowsRow(m.numCols, rows, k);
    assert rows[k] == RowsOf(m)[start + k];
  }

  /** A common prefix cancels. */
  lemma PrefixCancel(a: seq<Entry>, b: seq<Entry>, c: seq<Entry>)
    requires a + b == a + c
    ensures b == c
  {
    assert b == (a + b)[|a|..] && c == (a + c)[|a|..];
  }

  /** Rows `start .. e` of `m`, laid end to end, are the entries between their offsets. */
  lemma FlattenRowRange(m: CsrMatrix, start: nat, e: nat)
    requires Valid(m) && start <= e <= m.numRows
    ensures m.indptr[start] <= m.indptr[e] <= |m.data|
    ensures Flatten(RowsOf(m)[start..e]) == Entries(m)[m.indptr[start]..m.indptr[e]]
  {
    var rows := RowsOf(m);
    var lo, hi := m.indptr[start], m.indptr[e];
    assert lo <= hi;
    FlattenRowsPrefix(m, start);
    FlattenRowsPrefix(m, e);
    assert rows[..e] == rows[..start] + rows[start..e];
    FlattenAppend(rows[..start], rows[start..e]);
    var es := Entries(m);
    assert es[..hi] == es[..lo] + es[lo..hi];
    PrefixCancel(es[..lo], Flatten(rows[start..e]), es[lo..hi]);
  }

  /** The block's stored entries are the matrix's entries of those rows, in order. */
  lemma RowBlockEntries(m: CsrMatrix, start: nat, count: nat)
    requires Valid(m) && start + count <= m.numRows
    ensures m.indptr[start] <= m.indptr[start + count] <= |m.data|
    ensures Entries(RowBlock(m, start, count)) == Entries(m)[m.indptr[start]..m.indptr[start + count]]
  {
    var e := start + count;
    var rows := RowsOf(m)[start..e];
    assert RowBlock(m, start, count) == FromRows(m.numCols, rows);
    FromRowsEntries(m.numCols, rows);
    FlattenRowRange(m, start, e);
  }

  /** Two matrices whose entries are the two halves of `m`'s hold, end to end, its arrays. */
  lemma EntriesSplit(m: CsrMatrix, p: CsrMatrix, q: CsrMatrix, c: nat)
    requires |m.indices| == |m.data| && |p.indices| == |p.data| && |q.indices| == |q.data|
    requires c <= |m.data| && Entries(p) == Entries(m)[..c] && Entries(q) == Entries(m)[c..]
    ensures p.data + q.data == m.data && p.indices + q.indices == m.indices
  {
    forall i | 0 <= i < |m.data|
      ensures (p.data + q.data)[i] == m.data[i] && (p.indices + q.indices)[i] == m.indices[i]
    {
      if i < c {
        assert Entries(p)[i] == Entries(m)[i];
      } else {
        assert Entries(q)[i - c] == Entries(m)[i];
      }
    }
  }

  /**
   * Two adjoining blocks that cover the matrix hand back, laid end to end,
   * exactly its `data` and `indices`.
   */
  lemma TwoBlocksCover(m: CsrMatrix, a: nat)
    requires Valid(m) && a <= m.numRows
    ensures RowBlock(m, 0, a).data + RowBlock(m, a, m.numRows - a).data == m.data
    ensures RowBlock(m, 0, a).indices + RowBlock(m, a, m.numRows - a).indices == m.indices
  {
    var n := m.numRows;
    RowBlockEntries(m, 0, a);
    RowBlockEntries(m, a, n - a);
    assert m.indptr[0] == 0 && m.indptr[n] == |m.data|;
    EntriesSplit(m, RowBlock(m, 0, a), RowBlock(m, a, n - a), m.indptr[a]);
  }

  // ---------------------------------------------------------------------------
  // partitionMatrixIn2
  // ---------------------------------------------------------------------------

  /** The first position of `indptr` whose offset exceeds `half`, or `|indptr|` if none does. */
  method FirstAbove(indptr: seq<nat>, half: nat) returns (ind: nat)
    ensures ind <= |indptr|
    ensures forall j :: 0 <= j < ind ==> indptr[j] <= half
    ensures ind < |indptr| ==> indptr[ind] > half
  {
    ind := 0;
    while ind < |indptr| && indptr[ind] <= half
      invariant ind <= |indptr|
      invariant forall j :: 0 <= j < ind ==> indptr[j] <= half
    {
      ind := ind + 1;
    }
  }

  /** `|x - y|` on naturals. */
  function Dist(x: nat, y: nat): nat {
    if x <= y then y - x else x - y
  }

  /**
   * The balanced split point given the first offset above `half`: step
   * back one row when the offset before it is strictly closer to `half`.
   */
  function StepBack(indptr: seq<nat>, half: nat, ind: nat): (a: nat)
    requires 0 < ind < |indptr|
    ensures a == ind || a == ind - 1
  {
    if half - indptr[ind - 1] < indptr[ind] - half then ind - 1 else ind
  }

  /**
   * The balanced split is nnz-optimal: no other row boundary puts the
   * first part's non-zero count closer to half of the total.
   */
  lemma {:induction false} StepBackClosest(indptr: seq<nat>, half: nat, ind: nat, b: nat)
    requires 0 < ind < |indptr| && b < |indptr|
    requires forall i, j :: 0 <= i <= j < |indptr| ==> indptr[i] <= indptr[j]
    requires forall j :: 0 <= j < ind ==> indptr[j] <= half
    requires indptr[ind] > half
    ensures Dist(indptr[StepBack(indptr, half, ind)], half) <= Dist(indptr[b], half)
  {
    if b < ind {
      assert indptr[b] <= indptr[ind - 1] <= half;
    } else {
      assert indptr[ind] <= indptr[b];
    }
  }

  /**
   * Splitting before row `a` balances the non-zeros as well as any row
   * boundary can: the first part's count is as close to half the total as
   * at any other boundary.
   */
  predicate BalancedAt(m: CsrMatrix, a: nat)
    requires Valid(m) && a <= m.numRows
  {
    forall b :: 0 <= b <= m.numRows ==> Dist(m.indptr[a], |m.data| / 2) <= Dist(m.indptr[b], |m.data| / 2)
  }

  /** The step-back rule applied to the first offset above `half` gives a balanced split. */
  lemma ClosestSplit(m: CsrMatrix, half: nat, ind: nat)
    requires Valid(m) && half == |m.data| / 2 && 0 < ind < |m.indptr|
    requires forall j :: 0 <= j < ind ==> m.indptr[j] <= half
    requires m.indptr[ind] > half
    ensures BalancedAt(m, StepBack(m.indptr, half, ind))
  {
    forall b | 0 <= b <= m.numRows
      ensures Dist(m.indptr[StepBack(m.indptr, half, ind)], half) <= Dist(m.indptr[b], half)
    {
      StepBackClosest(m.indptr, half, ind, b);
    }
  }

  /**
   * `partitionMatrixIn2`'s split point as written. Unbalanced, the first
   * part gets `num_rows / 2` rows. Balanced, the search runs off the end of
   * `indptr` when no offset exceeds `nnz / 2`, which happens exactly when
   * the matrix has no non-zeros, and the step-back test then reads past it.
   */
  method SplitPointAsWritten(m: CsrMatrix, balance: bool) returns (r: Result<nat>)
    requires Valid(m)
    ensures r.Err? <==> balance && |m.data| == 0
    ensures r.Err? ==> r.error == OutOfBounds
    ensures r.Ok? ==> r.value <= m.numRows
    ensures !balance ==> r == Ok(m.numRows / 2)
    ensures balance && r.Ok? ==> BalancedAt(m, r.value)
  {
    if !balance {
      return Ok(m.numRows / 2);
    }
    var half := |m.data| / 2;
    var ind := FirstAbove(m.indptr, half);
    if ind == |m.indptr| {
      assert m.indptr[m.numRows] <= half;
      return Err(OutOfBounds);
    }
    assert ind != 0 by {
      assert m.indptr[0] == 0;
    }
    assert |m.data| > 0 by {
      assert m.indptr[ind] <= m.indptr[m.numRows];
    }
    ClosestSplit(m, half, ind);
    return Ok(StepBack(m.indptr, half, ind));
  }

  /**
   * The split point with an empty matrix falling back to the even row
   * split, as the unbalanced path does.
   */
  method SplitPoint(m: CsrMatrix, balance: bool) returns (a: nat)
    requires Valid(m)
    ensures a <= m.numRows
    ensures !balance || |m.data| == 0 ==> a == m.numRows / 2
    ensures balance && |m.data| > 0 ==> BalancedAt(m, a)
  {
    if !balance || |m.data| == 0 {
      return m.numRows / 2;
    }
    var half := |m.data| / 2;
    var ind := FirstAbove(m.indptr, half);
    assert ind < |m.indptr| by {
      assert m.indptr[m.numRows] > half;
    }
    assert ind != 0 by {
      assert m.indptr[0] == 0;
    }
    ClosestSplit(m, half, ind);
    a := StepBack(m.indptr, half, ind);
  }

  /** `partitionMatrixIn2` once the split point is known: rows before it, and rows from it on. */
  function Halves(m: CsrMatrix, a: nat): (parts: seq<CsrMatrix>)
    requires Valid(m) && a <= m.numRows
    ensures |parts| == 2
    ensures parts[0].numRows == a && parts[1].numRows == m.numRows - a
  {
    [RowBlock(m, 0, a), RowBlock(m, a, m.numRows - a)]
  }

  /**
   * `partitionMatrixIn2` as written: the two halves, or the out-of-bounds
   * read of an empty matrix split with balancing.
   */
  method PartitionIn2AsWritten(m: CsrMatrix, balance: bool) returns (r: Result<seq<CsrMatrix>>)
    requires Valid(m)
    ensures r.Err? <==> balance && |m.data| == 0
    ensures r.Ok? ==> |r.value| == 2 && r.value[0].numRows + r.value[1].numRows == m.numRows
  {
    var a := SplitPointAsWritten(m, balance);
    match a
    case Err(e) => return Err(e);
    case Ok(a) => return Ok(Halves(m, a));
  }

  /**
   * The two halves are valid matrices over the same columns whose rows are
   * the matrix's rows before and from the split point, and whose `data` and
   * `indices` laid end to end are the matrix's.
   */
  lemma HalvesCover(m: CsrMatrix, a: nat)
    requires Valid(m) && a <= m.numRows
    ensures var parts := Halves(m, a);
            && Valid(parts[0]) && Valid(parts[1]) && parts[0].numCols == parts[1].numCols == m.numCols
            && parts[0].data + parts[1].data == m.data && parts[0].indices + parts[1].indices == m.indices
            && (forall k :: 0 <= k < a ==> RowEntries(parts[0], k) == RowEntries(m, k))
            && (forall k :: 0 <= k < m.numRows - a ==> RowEntries(parts[1], k) == RowEntries(m, a + k))
  {
    TwoBlocksCover(m, a);
    forall k | 0 <= k < a
      ensures RowEntries(RowBlock(m, 0, a), k) == RowEntries(m, k)
    {
      RowBlockRows(m, 0, a, k);
    }
    var c := m.numRows - a;
    var q := RowBlock(m, a, c);
    forall k | 0 <= k < c
      ensures RowEntries(q, k) == RowEntries(m, a + k)
    {
      RowBlockRows(m, a, c, k);
    }
  }

  /** `partitionMatrixIn2` with the empty-matrix fallback. */
  method PartitionIn2(m: CsrMatrix, balance: bool) returns (parts: seq<CsrMatrix>)
    requires Valid(m)
    ensures |parts| == 2 && parts[0].numRows + parts[1].numRows == m.numRows
    ensures !balance || |m.data| == 0 ==> parts[0].numRows == m.numRows / 2
    ensures parts == Halves(m, parts[0].numRows)
  {
    var a := SplitPoint(m, balance);
    parts := Halves(m, a);
  }

  /** A 2-row matrix without non-zeros: split with balancing, the search runs off `indptr`. */
  lemma EmptyMatrixOverrun()
    ensures Valid(Empty(2, 2)) && |Empty(2, 2).data| == 0
    ensures var ip := Empty(2, 2).indptr;
            |ip| == 3 && forall j :: 0 <= j < |ip| ==> ip[j] <= |Empty(2, 2).data| / 2
  {
  }

  // ---------------------------------------------------------------------------
  // partitionRows
  // ---------------------------------------------------------------------------

  /** Where partition `p` of `parts` starts: `p * num_rows / parts`. */
  function RowBound(p: nat, n: nat, parts: nat): nat
    requires parts > 0
  {
    p * n / parts
  }

  /** Floor division is monotone. */
  lemma DivMonotone(x: nat, y: nat, d: nat)
    requires d > 0 && x <= y
    ensures x / d <= y / d
  {
    if x / d > y / d {
      MulMonotone(y / d + 1, x / d, d);
    }
  }

  /** Bounds grow with `p` and reach `n` at `p == parts`. */
  lemma RowBoundShape(p: nat, q: nat, n: nat, parts: nat)
    requires parts > 0 && p <= q
    ensures RowBound(p, n, parts) <= RowBound(q, n, parts)
    ensures RowBound(parts, n, parts) == n
    ensures RowBound(0, n, parts) == 0
  {
    MulMonotone(p, q, n);
    DivMonotone(p * n, q * n, parts);
    DivModUnique(parts * n, parts, n, 0);
  }

  /** Rows partition `p` of `parts` gets. */
  function PartRows(p: nat, n: nat, parts: nat): nat
    requires parts > 0
  {
    RowBoundShape(p, p + 1, n, parts);
    RowBound(p + 1, n, parts) - RowBound(p, n, parts)
  }

  /**
   * `partitionRows`: partition `p` of `parts` is the block of rows from
   * `p * n / parts` up to `(p + 1) * n / parts`.
   */
  function PartitionRows(m: CsrMatrix, p: nat, parts: nat): (part: CsrMatrix)
    requires Valid(m) && parts > 0 && p < parts
    ensures Valid(part) && part.numCols == m.numCols
    ensures part.numRows == PartRows(p, m.numRows, parts)
  {
    RowBoundShape(p + 1, parts, m.numRows, parts);
    RowBlock(m, RowBound(p, m.numRows, parts), PartRows(p, m.numRows, parts))
  }

  /** Row `k` of partition `p` is row `p * n / parts + k` of the matrix. */
  lemma PartitionRowsRows(m: CsrMatrix, p: nat, parts: nat, k: nat)
    requires Valid(m) && parts > 0 && p < parts && k < PartRows(p, m.numRows, parts)
    ensures RowBound(p, m.numRows, parts) + k < m.numRows
    ensures RowEntries(PartitionRows(m, p, parts), k) == RowEntries(m, RowBound(p, m.numRows, parts) + k)
  {
    RowBoundShape(p + 1, parts, m.numRows, parts);
    RowBlockRows(m, RowBound(p, m.numRows, parts), PartRows(p, m.numRows, parts), k);
  }

  /** Rows of the first `q` partitions together. */
  function RowsBefore(q: nat, n: nat, parts: nat): nat
    requires parts > 0
    decreases q
  {
    if q == 0 then 0 else RowsBefore(q - 1, n, parts) + PartRows(q - 1, n, parts)
  }

  /**
   * The partitions adjoin: the first `q` of them cover exactly the rows
   * below `q * n / parts`, so all `parts` of them cover the `n` rows.
   */
  lemma {:induction false} PartitionsAdjoin(q: nat, n: nat, parts: nat)
    requires parts > 0
    ensures RowsBefore(q, n, parts) == RowBound(q, n, parts)
    decreases q
  {
    if q > 0 {
      PartitionsAdjoin(q - 1, n, parts);
    } else {
      RowBoundShape(0, 0, n, parts);
    }
  }

  /** All `parts` partitions together hold the `n` rows. */
  lemma PartitionsCover(n: nat, parts: nat)
    requires parts > 0
    ensures RowsBefore(parts, n, parts) == n
  {
    PartitionsAdjoin(parts, n, parts);
    RowBoundShape(0, 0, n, parts);
  }
}
