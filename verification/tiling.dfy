/**
 * `PartitionedCSR`: a row-compressed matrix cut into a grid of
 * row-partition x column-partition tiles. Tiles number their rows locally
 * and keep global column indices.
 */
module Tiling {
  import opened Errors
  import opened Csr

  datatype PartitionedCsr = PartitionedCsr(
    rowPartitionSize: nat,
    colPartitionSize: nat,
    numRowPartitions: nat,
    numColPartitions: nat,
    numRowsLast: nat,
    numColsLast: nat,
    totalNumRows: nat,
    totalNumCols: nat,
    partitions: seq<seq<CsrMatrix>>)

  /** `(n + d - 1) / d`: the number of partitions of size `d` covering `n`. */
  function CeilDiv(n: nat, d: nat): nat
    requires d > 0
  {
    (n + d - 1) / d
  }

  /** Size of the last partition: `n % d`, or a full `d` when that is 0. */
  function LastSize(n: nat, d: nat): nat
    requires d > 0
  {
    if n % d != 0 then n % d else d
  }

  /** Size of partition `i` of `n` items cut into pieces of `d`. */
  function PartSize(n: nat, d: nat, i: nat): nat
    requires d > 0
  {
    if i == CeilDiv(n, d) - 1 then LastSize(n, d) else d
  }

  /** `CeilDiv` is `n / d`, plus one when `d` does not divide `n`. */
  lemma CeilDivValue(n: nat, d: nat)
    requires d > 0
    ensures CeilDiv(n, d) == if n % d == 0 then n / d else n / d + 1
  {
    var q := n / d;
    var rem := n % d;
    assert n == q * d + rem && rem < d;
    if rem == 0 {
      DivModUnique(n + d - 1, d, q, d - 1);
    } else {
      DivModUnique(n + d - 1, d, q + 1, rem - 1);
    }
  }

  /** Partitions of size `d` tile `[0, n)`: partition `i` ends within `n`, the last one exactly at `n`. */
  lemma PartitionBounds(n: nat, d: nat, i: nat)
    requires d > 0 && i < CeilDiv(n, d)
    ensures i * d + PartSize(n, d, i) <= n
    ensures i == CeilDiv(n, d) - 1 ==> i * d + PartSize(n, d, i) == n
  {
    var q := n / d;
    var rem := n % d;
    assert n == q * d + rem && rem < d;
    CeilDivValue(n, d);
    assert (i + 1) * d == i * d + d;
    if i < CeilDiv(n, d) - 1 {
      MulMonotone(i + 1, q, d);
    } else if rem == 0 {
      assert i + 1 == q;
    } else {
      assert i == q;
    }
  }

  /** The partitions cover every item: `n <= CeilDiv(n, d) * d`. */
  lemma CeilDivCovers(n: nat, d: nat)
    requires d > 0
    ensures n <= CeilDiv(n, d) * d
  {
    var c := CeilDiv(n, d);
    assert n + d - 1 == c * d + (n + d - 1) % d;
  }

  /** An item `x < n` falls in partition `x / d`, which exists. */
  lemma ItemPartition(x: nat, n: nat, d: nat)
    requires d > 0 && x < n
    ensures x / d < CeilDiv(n, d)
    ensures (x / d) * d + x % d == x
    ensures x % d < PartSize(n, d, x / d)
  {
    var i, r := x / d, x % d;
    var c := CeilDiv(n, d);
    assert x == i * d + r && r < d;
    CeilDivCovers(n, d);
    assert x < d * c;
    DivBelow(x, d, c);
    PartitionBounds(n, d, i);
  }

  /** The entries of `es` that fall in column partition `j`, in their original order. */
  function InColPartition(es: seq<Entry>, colPartitionSize: nat, j: nat): seq<Entry>
    requires colPartitionSize > 0
    decreases |es|
  {
    if |es| == 0 then []
    else
      var e := es[|es| - 1];
      InColPartition(es[..|es| - 1], colPartitionSize, j)
        + (if e.col / colPartitionSize == j then [e] else [])
  }

  /** The local rows of tile `(i, j)`: each source row filtered to column partition `j`. */
  function TileRows(m: CsrMatrix, rowPartitionSize: nat, colPartitionSize: nat,
                    i: nat, j: nat, nrows: nat): (rows: seq<seq<Entry>>)
    requires Valid(m) && rowPartitionSize > 0 && colPartitionSize > 0
    requires i * rowPartitionSize + nrows <= m.numRows
    ensures |rows| == nrows
  {
    seq(nrows, k requires 0 <= k < nrows =>
          InColPartition(RowEntries(m, i * rowPartitionSize + k), colPartitionSize, j))
  }

  /** Tile `(i, j)` as the constructor builds it. */
  function Tile(m: CsrMatrix, rowPartitionSize: nat, colPartitionSize: nat, i: nat, j: nat)
    : (t: CsrMatrix)
    requires Valid(m) && rowPartitionSize > 0 && colPartitionSize > 0
    requires i < CeilDiv(m.numRows, rowPartitionSize)
    ensures Valid(t)
    ensures t.numRows == PartSize(m.numRows, rowPartitionSize, i)
    ensures t.numCols == PartSize(m.numCols, colPartitionSize, j)
  {
    PartitionBounds(m.numRows, rowPartitionSize, i);
    var nrows := PartSize(m.numRows, rowPartitionSize, i);
    FromRows(PartSize(m.numCols, colPartitionSize, j),
             TileRows(m, rowPartitionSize, colPartitionSize, i, j, nrows))
  }

  /** The grid of tiles, for non-zero partition sizes. */
  function PartitionGrid(m: CsrMatrix, rowPartitionSize: nat, colPartitionSize: nat)
    : (p: PartitionedCsr)
    requires Valid(m) && rowPartitionSize > 0 && colPartitionSize > 0
    ensures GridValid(p)
    ensures p.rowPartitionSize == rowPartitionSize && p.colPartitionSize == colPartitionSize
    ensures p.totalNumRows == m.numRows && p.totalNumCols == m.numCols
    ensures p.numRowPartitions == CeilDiv(m.numRows, rowPartitionSize)
    ensures p.numColPartitions == CeilDiv(m.numCols, colPartitionSize)
    ensures p.numRowsLast == LastSize(m.numRows, rowPartitionSize)
    ensures p.numColsLast == LastSize(m.numCols, colPartitionSize)
  {
    var nrp := CeilDiv(m.numRows, rowPartitionSize);
    var ncp := CeilDiv(m.numCols, colPartitionSize);
    var grid := seq(nrp, i requires 0 <= i < nrp =>
                  seq(ncp, j requires 0 <= j < ncp =>
                    Tile(m, rowPartitionSize, colPartitionSize, i, j)));
    PartitionedCsr(rowPartitionSize, colPartitionSize, nrp, ncp,
                   LastSize(m.numRows, rowPartitionSize), LastSize(m.numCols, colPartitionSize),
                   m.numRows, m.numCols, grid)
  }

  /** The grid holds tile `(i, j)` at `partitions[i][j]`. */
  lemma GridTile(m: CsrMatrix, rowPartitionSize: nat, colPartitionSize: nat, i: nat, j: nat)
    requires Valid(m) && rowPartitionSize > 0 && colPartitionSize > 0
    requires i < CeilDiv(m.numRows, rowPartitionSize) && j < CeilDiv(m.numCols, colPartitionSize)
    ensures i < |PartitionGrid(m, rowPartitionSize, colPartitionSize).partitions|
    ensures j < |PartitionGrid(m, rowPartitionSize, colPartitionSize).partitions[i]|
    ensures PartitionGrid(m, rowPartitionSize, colPartitionSize).partitions[i][j]
            == Tile(m, rowPartitionSize, colPartitionSize, i, j)
  {
  }

  /** The shape a partitioned matrix has: a full grid of valid tiles, last row partition shorter. */
  predicate GridValid(p: PartitionedCsr) {
    && p.rowPartitionSize > 0 && p.colPartitionSize > 0
    && |p.partitions| == p.numRowPartitions
    && p.numRowPartitions == CeilDiv(p.totalNumRows, p.rowPartitionSize)
    && (forall i :: 0 <= i < |p.partitions| ==> |p.partitions[i]| == p.numColPartitions)
    && (forall i, j :: 0 <= i < |p.partitions| && 0 <= j < |p.partitions[i]| ==>
          Valid(p.partitions[i][j]) &&
          p.partitions[i][j].numRows == PartSize(p.totalNumRows, p.rowPartitionSize, i))
  }

  /**
   * `PartitionedCSR`'s constructor as written: a zero partition size reaches
   * the divisions at deprecated/spmv/sp_data_structure.h:269-270 and is undefined behaviour, modelled as
   * `DivisionByZero`.
   */
  function PartitionAsWritten(m: CsrMatrix, rowPartitionSize: nat, colPartitionSize: nat)
    : (r: Result<PartitionedCsr>)
    requires Valid(m) && ColsInRange(m)
    ensures r.Err? <==> rowPartitionSize == 0 || colPartitionSize == 0
    ensures r.Err? ==> r.error == DivisionByZero
  {
    if rowPartitionSize == 0 || colPartitionSize == 0 then Err(DivisionByZero)
    else Ok(PartitionGrid(m, rowPartitionSize, colPartitionSize))
  }

  /** The unchecked constructor divides by zero on a zero column-partition size. */
  lemma PartitionAsWrittenDividesByZero()
    ensures PartitionAsWritten(Empty(4, 4), 4, 0) == Err(DivisionByZero)
  {}

  /**
   * `PartitionedCSR` with the missing argument check: zero partition sizes
   * are rejected as invalid arguments before any arithmetic.
   */
  function Partition(m: CsrMatrix, rowPartitionSize: nat, colPartitionSize: nat)
    : (r: Result<PartitionedCsr>)
    requires Valid(m) && ColsInRange(m)
    ensures r.Err? <==> rowPartitionSize == 0 || colPartitionSize == 0
    ensures r.Err? ==> r.error.InvalidArgument?
    ensures r.Ok? ==> GridValid(r.value) && r.value.totalNumRows == m.numRows
  {
    if rowPartitionSize == 0 || colPartitionSize == 0 then
      Err(InvalidArgument("partition size must be positive"))
    else Ok(PartitionGrid(m, rowPartitionSize, colPartitionSize))
  }

  //-------------------------------------------------------------------------
  // Properties of the tiles
  //-------------------------------------------------------------------------

  /**
   * Local row `k` of tile `(i, j)` holds exactly the entries of source row
   * `i * row_partition_size + k` whose column lies in partition `j`, with
   * global column indices, in source order.
   */
  lemma TileRowContents(m: CsrMatrix, rowPartitionSize: nat, colPartitionSize: nat,
                        i: nat, j: nat, k: nat)
    requires Valid(m) && rowPartitionSize > 0 && colPartitionSize > 0
    requires i < CeilDiv(m.numRows, rowPartitionSize)
    requires k < PartSize(m.numRows, rowPartitionSize, i)
    ensures i * rowPartitionSize + k < m.numRows
    ensures RowEntries(Tile(m, rowPartitionSize, colPartitionSize, i, j), k)
            == InColPartition(RowEntries(m, i * rowPartitionSize + k), colPartitionSize, j)
  {
    PartitionBounds(m.numRows, rowPartitionSize, i);
    var nrows := PartSize(m.numRows, rowPartitionSize, i);
    FromRowsRow(PartSize(m.numCols, colPartitionSize, j),
                TileRows(m, rowPartitionSize, colPartitionSize, i, j, nrows), k);
  }

  /**
   * Each tile's offsets are rebuilt from per-row counts: consecutive offsets
   * differ by the number of the source row's entries in the tile's column
   * range (and, the tile being valid, they run from 0 to the tile's nnz).
   */
  lemma TileIndptr(m: CsrMatrix, rowPartitionSize: nat, colPartitionSize: nat,
                   i: nat, j: nat, k: nat)
    requires Valid(m) && rowPartitionSize > 0 && colPartitionSize > 0
    requires i < CeilDiv(m.numRows, rowPartitionSize)
    requires k < PartSize(m.numRows, rowPartitionSize, i)
    ensures i * rowPartitionSize + k < m.numRows
    ensures var t := Tile(m, rowPartitionSize, colPartitionSize, i, j);
            && t.indptr[0] == 0
            && t.indptr[t.numRows] == |t.data|
            && t.indptr[k + 1] - t.indptr[k] ==
                 |InColPartition(RowEntries(m, i * rowPartitionSize + k), colPartitionSize, j)|
  {
    TileRowContents(m, rowPartitionSize, colPartitionSize, i, j, k);
  }

  /** Sum over column partitions `j < n` of the multiset of entries in partition `j`. */
  function BucketMultisets(es: seq<Entry>, colPartitionSize: nat, n: nat): multiset<Entry>
    requires colPartitionSize > 0
  {
    if n == 0 then multiset{}
    else BucketMultisets(es, colPartitionSize, n - 1)
           + multiset(InColPartition(es, colPartitionSize, n - 1))
  }

  /** Appending `e` adds `e` to bucket `j` exactly when `e` falls in it. */
  lemma BucketMultisetSnoc(es: seq<Entry>, e: Entry, colPartitionSize: nat, j: nat)
    requires colPartitionSize > 0
    ensures multiset(InColPartition(es + [e], colPartitionSize, j))
            == multiset(InColPartition(es, colPartitionSize, j))
               + (if e.col / colPartitionSize == j then multiset{e} else multiset{})
  {
    InColPartitionSnoc(es, e, colPartitionSize, j);
    var piece := InColPartition(es, colPartitionSize, j);
    if e.col / colPartitionSize == j {
      assert multiset(piece + [e]) == multiset(piece) + multiset{e};
    } else {
      assert InColPartition(es + [e], colPartitionSize, j) == piece + [] == piece;
    }
  }

  lemma {:induction false} BucketMultisetsSnoc(es: seq<Entry>, e: Entry, colPartitionSize: nat, n: nat)
    requires colPartitionSize > 0
    ensures BucketMultisets(es + [e], colPartitionSize, n)
            == BucketMultisets(es, colPartitionSize, n)
               + (if e.col / colPartitionSize < n then multiset{e} else multiset{})
  {
    if n > 0 {
      var j := n - 1;
      BucketMultisetsSnoc(es, e, colPartitionSize, j);
      BucketMultisetSnoc(es, e, colPartitionSize, j);
      var b := e.col / colPartitionSize;
      AddOnce(BucketMultisets(es, colPartitionSize, j), BucketMultisets(es + [e], colPartitionSize, j),
              multiset(InColPartition(es, colPartitionSize, j)), multiset(InColPartition(es + [e], colPartitionSize, j)),
              e, b < j, b == j);
    }
  }

  /** `e` added to at most one of two multisets is added once to their sum. */
  lemma AddOnce(a: multiset<Entry>, a2: multiset<Entry>, p: multiset<Entry>, p2: multiset<Entry>, e: Entry,
                inA: bool, inP: bool)
    requires !(inA && inP)
    requires a2 == a + (if inA then multiset{e} else multiset{})
    requires p2 == p + (if inP then multiset{e} else multiset{})
    ensures a2 + p2 == a + p + (if inA || inP then multiset{e} else multiset{})
  {
  }

  /**
   * Splitting a row by column partition loses and duplicates nothing: the
   * pieces together hold exactly the row's entries.
   */
  lemma {:induction false} BucketsPartitionRow(es: seq<Entry>, colPartitionSize: nat, n: nat)
    requires colPartitionSize > 0
    requires forall x :: 0 <= x < |es| ==> es[x].col / colPartitionSize < n
    ensures BucketMultisets(es, colPartitionSize, n) == multiset(es)
    decreases |es|
  {
    if |es| == 0 {
      BucketsOfEmpty(colPartitionSize, n);
    } else {
      var init := es[..|es| - 1];
      var e := es[|es| - 1];
      assert es == init + [e];
      BucketsPartitionRow(init, colPartitionSize, n);
      BucketMultisetsSnoc(init, e, colPartitionSize, n);
    }
  }

  lemma {:induction false} BucketsOfEmpty(colPartitionSize: nat, n: nat)
    requires colPartitionSize > 0
    ensures BucketMultisets([], colPartitionSize, n) == multiset{}
  {
    if n > 0 {
      BucketsOfEmpty(colPartitionSize, n - 1);
    }
  }

  lemma {:induction false} InColPartitionColsBelow(es: seq<Entry>, colPartitionSize: nat, j: nat, bound: nat)
    requires colPartitionSize > 0 && ColsBelow(es, bound)
    ensures ColsBelow(InColPartition(es, colPartitionSize, j), bound)
    decreases |es|
  {
    if |es| > 0 {
      InColPartitionColsBelow(es[..|es| - 1], colPartitionSize, j, bound);
    }
  }

  lemma InColPartitionSnoc(es: seq<Entry>, e: Entry, colPartitionSize: nat, j: nat)
    requires colPartitionSize > 0
    ensures InColPartition(es + [e], colPartitionSize, j)
            == InColPartition(es, colPartitionSize, j)
               + (if e.col / colPartitionSize == j then [e] else [])
  {
    assert (es + [e])[..|es + [e]| - 1] == es;
  }

  /**
   * Sum of `w` over a list of entries. The product splits by column partition
   * for any per-entry weight; the dot product is the weight `ProductWeight(v)`.
   */
  function WeightSum(es: seq<Entry>, w: Entry -> int): int
    decreases |es|
  {
    if |es| == 0 then 0 else WeightSum(es[..|es| - 1], w) + w(es[|es| - 1])
  }

  function ProductWeight(v: seq<int>): Entry -> int {
    (e: Entry) => if e.col < |v| then e.val * v[e.col] else 0
  }

  lemma {:induction false} DotIsWeightSum(es: seq<Entry>, v: seq<int>)
    requires ColsBelow(es, |v|)
    ensures Dot(es, v) == WeightSum(es, ProductWeight(v))
    decreases |es|
  {
    if |es| > 0 {
      DotIsWeightSum(es[..|es| - 1], v);
    }
  }

  /** Sum over column partitions `j < n` of the weight of partition `j`'s entries. */
  function BucketWeights(es: seq<Entry>, w: Entry -> int, colPartitionSize: nat, n: nat): int
    requires colPartitionSize > 0
  {
    if n == 0 then 0
    else BucketWeights(es, w, colPartitionSize, n - 1) + WeightSum(InColPartition(es, colPartitionSize, n - 1), w)
  }

  /** Appending `e` changes bucket `j`'s weight by `w(e)` exactly when `e` falls in it. */
  lemma BucketWeightSnoc(es: seq<Entry>, e: Entry, w: Entry -> int, colPartitionSize: nat, j: nat)
    requires colPartitionSize > 0
    ensures WeightSum(InColPartition(es + [e], colPartitionSize, j), w)
            == WeightSum(InColPartition(es, colPartitionSize, j), w)
               + (if e.col / colPartitionSize == j then w(e) else 0)
  {
    InColPartitionSnoc(es, e, colPartitionSize, j);
    var piece := InColPartition(es, colPartitionSize, j);
    if e.col / colPartitionSize == j {
      var grown := piece + [e];
      assert InColPartition(es + [e], colPartitionSize, j) == grown;
      assert grown[..|grown| - 1] == piece && grown[|grown| - 1] == e;
      assert WeightSum(grown, w) == WeightSum(piece, w) + w(e);
    } else {
      assert InColPartition(es + [e], colPartitionSize, j) == piece + [] == piece;
    }
  }

  lemma {:induction false} BucketWeightsSnoc(es: seq<Entry>, e: Entry, w: Entry -> int, colPartitionSize: nat, n: nat)
    requires colPartitionSize > 0
    ensures BucketWeights(es + [e], w, colPartitionSize, n)
            == BucketWeights(es, w, colPartitionSize, n)
               + (if e.col / colPartitionSize < n then w(e) else 0)
  {
    if n > 0 {
      BucketWeightsSnoc(es, e, w, colPartitionSize, n - 1);
      BucketWeightSnoc(es, e, w, colPartitionSize, n - 1);
    }
  }

  lemma {:induction false} BucketWeightsOfEmpty(w: Entry -> int, colPartitionSize: nat, n: nat)
    requires colPartitionSize > 0
    ensures BucketWeights([], w, colPartitionSize, n) == 0
  {
    if n > 0 {
      BucketWeightsOfEmpty(w, colPartitionSize, n - 1);
    }
  }

  /** The weights of a row's column-partition pieces add up to the row's weight. */
  lemma {:induction false} BucketsSumWeight(es: seq<Entry>, w: Entry -> int, colPartitionSize: nat, n: nat)
    requires colPartitionSize > 0
    requires forall x :: 0 <= x < |es| ==> es[x].col / colPartitionSize < n
    ensures BucketWeights(es, w, colPartitionSize, n) == WeightSum(es, w)
    decreases |es|
  {
    if |es| == 0 {
      BucketWeightsOfEmpty(w, colPartitionSize, n);
    } else {
      var init := es[..|es| - 1];
      var e := es[|es| - 1];
      assert es == init + [e];
      BucketsSumWeight(init, w, colPartitionSize, n);
      BucketWeightsSnoc(init, e, w, colPartitionSize, n);
    }
  }

  /** Every column of a row of `m` lies in one of the column partitions. */
  lemma RowColsInPartitions(m: CsrMatrix, colPartitionSize: nat, r: nat)
    requires Valid(m) && ColsInRange(m) && colPartitionSize > 0 && r < m.numRows
    ensures forall x :: 0 <= x < |RowEntries(m, r)| ==>
              RowEntries(m, r)[x].col / colPartitionSize < CeilDiv(m.numCols, colPartitionSize)
  {
    RowColsBelow(m, r, m.numCols);
    forall x | 0 <= x < |RowEntries(m, r)|
      ensures RowEntries(m, r)[x].col / colPartitionSize < CeilDiv(m.numCols, colPartitionSize)
    {
      ItemPartition(RowEntries(m, r)[x].col, m.numCols, colPartitionSize);
    }
  }

  /** A row's pieces, one per column partition `j < n`. */
  function Pieces(es: seq<Entry>, colPartitionSize: nat, n: nat): (ps: seq<seq<Entry>>)
    requires colPartitionSize > 0
    ensures |ps| == n
  {
    seq(n, j requires 0 <= j < n => InColPartition(es, colPartitionSize, j))
  }

  /** Local row `k` of every tile in row partition `i`, in column-partition order. */
  function LocalRows(p: PartitionedCsr, i: nat, k: nat): (rows: seq<seq<Entry>>)
    requires GridValid(p) && i < p.numRowPartitions
    requires k < PartSize(p.totalNumRows, p.rowPartitionSize, i)
    ensures |rows| == p.numColPartitions
  {
    seq(p.numColPartitions, j requires 0 <= j < p.numColPartitions => RowEntries(p.partitions[i][j], k))
  }

  /** Multiset union of a list of entry lists. */
  function MultisetSum(rows: seq<seq<Entry>>): multiset<Entry>
    decreases |rows|
  {
    if |rows| == 0 then multiset{} else MultisetSum(rows[..|rows| - 1]) + multiset(rows[|rows| - 1])
  }

  /** Sum of the dot products of a list of entry lists with `v`. */
  function DotSum(rows: seq<seq<Entry>>, v: seq<int>): int
    requires forall j :: 0 <= j < |rows| ==> ColsBelow(rows[j], |v|)
    decreases |rows|
  {
    if |rows| == 0 then 0 else DotSum(rows[..|rows| - 1], v) + Dot(rows[|rows| - 1], v)
  }

  lemma {:induction false} PiecesMultisets(es: seq<Entry>, colPartitionSize: nat, n: nat)
    requires colPartitionSize > 0
    ensures MultisetSum(Pieces(es, colPartitionSize, n)) == BucketMultisets(es, colPartitionSize, n)
  {
    if n > 0 {
      PiecesMultisets(es, colPartitionSize, n - 1);
      assert Pieces(es, colPartitionSize, n)[..n - 1] == Pieces(es, colPartitionSize, n - 1);
    }
  }

  /** Sum of the weights of a list of entry lists. */
  function WeightSums(rows: seq<seq<Entry>>, w: Entry -> int): int
    decreases |rows|
  {
    if |rows| == 0 then 0 else WeightSums(rows[..|rows| - 1], w) + WeightSum(rows[|rows| - 1], w)
  }

  lemma {:induction false} DotSumIsWeightSums(rows: seq<seq<Entry>>, v: seq<int>)
    requires forall j :: 0 <= j < |rows| ==> ColsBelow(rows[j], |v|)
    ensures DotSum(rows, v) == WeightSums(rows, ProductWeight(v))
    decreases |rows|
  {
    if |rows| > 0 {
      DotSumIsWeightSums(rows[..|rows| - 1], v);
      DotIsWeightSum(rows[|rows| - 1], v);
    }
  }

  lemma {:induction false} PiecesWeights(es: seq<Entry>, w: Entry -> int, colPartitionSize: nat, n: nat)
    requires colPartitionSize > 0
    ensures WeightSums(Pieces(es, colPartitionSize, n), w) == BucketWeights(es, w, colPartitionSize, n)
  {
    if n > 0 {
      PiecesWeights(es, w, colPartitionSize, n - 1);
      assert Pieces(es, colPartitionSize, n)[..n - 1] == Pieces(es, colPartitionSize, n - 1);
    }
  }

  lemma PiecesColsBelow(es: seq<Entry>, bound: nat, colPartitionSize: nat, n: nat)
    requires colPartitionSize > 0 && ColsBelow(es, bound)
    ensures forall j :: 0 <= j < n ==> ColsBelow(Pieces(es, colPartitionSize, n)[j], bound)
  {
    forall j | 0 <= j < n
      ensures ColsBelow(Pieces(es, colPartitionSize, n)[j], bound)
    {
      InColPartitionColsBelow(es, colPartitionSize, j, bound);
    }
  }

  /** Tile `(r / row_partition_size, j)` holds, at local row `r % row_partition_size`, row `r`'s entries in column partition `j`. */
  lemma TileHoldsRowPiece(m: CsrMatrix, rowPartitionSize: nat, colPartitionSize: nat, r: nat, j: nat)
    requires Valid(m) && rowPartitionSize > 0 && colPartitionSize > 0 && r < m.numRows
    requires j < CeilDiv(m.numCols, colPartitionSize)
    ensures r / rowPartitionSize < CeilDiv(m.numRows, rowPartitionSize)
    ensures r % rowPartitionSize < PartSize(m.numRows, rowPartitionSize, r / rowPartitionSize)
    ensures RowEntries(Tile(m, rowPartitionSize, colPartitionSize, r / rowPartitionSize, j), r % rowPartitionSize)
            == InColPartition(RowEntries(m, r), colPartitionSize, j)
  {
    var i := r / rowPartitionSize;
    var k := r % rowPartitionSize;
    ItemPartition(r, m.numRows, rowPartitionSize);
    TileRowContents(m, rowPartitionSize, colPartitionSize, i, j, k);
    assert i * rowPartitionSize + k == r;
  }

  /** Local row `r % row_partition_size` across row partition `r / row_partition_size` is row `r` cut by column partition. */
  lemma LocalRowsArePieces(m: CsrMatrix, rowPartitionSize: nat, colPartitionSize: nat, r: nat, i: nat, k: nat)
    requires Valid(m) && rowPartitionSize > 0 && colPartitionSize > 0 && r < m.numRows
    requires i == r / rowPartitionSize && k == r % rowPartitionSize
    ensures var p := PartitionGrid(m, rowPartitionSize, colPartitionSize);
            && i < p.numRowPartitions
            && k < PartSize(m.numRows, rowPartitionSize, i)
            && LocalRows(p, i, k) == Pieces(RowEntries(m, r), colPartitionSize, p.numColPartitions)
  {
    ItemPartition(r, m.numRows, rowPartitionSize);
    GridLocalRows(m, rowPartitionSize, colPartitionSize, i, k);
    var ncp := CeilDiv(m.numCols, colPartitionSize);
    var pieces := Pieces(RowEntries(m, r), colPartitionSize, ncp);
    var viaTiles := seq(ncp, j requires 0 <= j < ncp =>
                      RowEntries(Tile(m, rowPartitionSize, colPartitionSize, i, j), k));
    forall j | 0 <= j < ncp
      ensures viaTiles[j] == pieces[j]
    {
      TileHoldsRowPiece(m, rowPartitionSize, colPartitionSize, r, j);
    }
    assert viaTiles == pieces;
  }

  /** The grid's local rows are the tiles' local rows. */
  lemma GridLocalRows(m: CsrMatrix, rowPartitionSize: nat, colPartitionSize: nat, i: nat, k: nat)
    requires Valid(m) && rowPartitionSize > 0 && colPartitionSize > 0
    requires i < CeilDiv(m.numRows, rowPartitionSize)
    requires k < PartSize(m.numRows, rowPartitionSize, i)
    ensures var ncp := CeilDiv(m.numCols, colPartitionSize);
            LocalRows(PartitionGrid(m, rowPartitionSize, colPartitionSize), i, k)
            == seq(ncp, j requires 0 <= j < ncp =>
                 RowEntries(Tile(m, rowPartitionSize, colPartitionSize, i, j), k))
  {
    var p := PartitionGrid(m, rowPartitionSize, colPartitionSize);
    forall j | 0 <= j < p.numColPartitions
      ensures p.partitions[i][j] == Tile(m, rowPartitionSize, colPartitionSize, i, j)
    {
      GridTile(m, rowPartitionSize, colPartitionSize, i, j);
    }
  }

  /**
   * Every non-zero of source row `r` is placed exactly once: the local rows
   * `r % row_partition_size` of the tiles in row partition
   * `r / row_partition_size` hold, together, exactly the entries of row `r`,
   * and each entry sits in the tile of its column partition.
   */
  lemma PlacedExactlyOnce(m: CsrMatrix, rowPartitionSize: nat, colPartitionSize: nat, r: nat, i: nat, k: nat)
    requires Valid(m) && ColsInRange(m) && rowPartitionSize > 0 && colPartitionSize > 0
    requires r < m.numRows && i == r / rowPartitionSize && k == r % rowPartitionSize
    ensures var p := PartitionGrid(m, rowPartitionSize, colPartitionSize);
            && i < p.numRowPartitions
            && k < PartSize(m.numRows, rowPartitionSize, i)
            && var local := LocalRows(p, i, k);
               && MultisetSum(local) == multiset(RowEntries(m, r))
               && forall j, e :: 0 <= j < |local| ==>
                    (e in local[j] <==> e in RowEntries(m, r) && e.col / colPartitionSize == j)
  {
    var p := PartitionGrid(m, rowPartitionSize, colPartitionSize);
    var row := RowEntries(m, r);
    LocalRowsArePieces(m, rowPartitionSize, colPartitionSize, r, i, k);
    RowColsInPartitions(m, colPartitionSize, r);
    PiecesCoverRow(row, colPartitionSize, p.numColPartitions);
    PiecesMembers(row, colPartitionSize, p.numColPartitions);
  }

  /** Cut by column partition, a row's pieces hold, together, exactly its entries. */
  lemma PiecesCoverRow(es: seq<Entry>, colPartitionSize: nat, n: nat)
    requires colPartitionSize > 0
    requires forall x :: 0 <= x < |es| ==> es[x].col / colPartitionSize < n
    ensures MultisetSum(Pieces(es, colPartitionSize, n)) == multiset(es)
  {
    PiecesMultisets(es, colPartitionSize, n);
    BucketsPartitionRow(es, colPartitionSize, n);
  }

  /** Piece `j` holds exactly the row's entries whose column lies in partition `j`. */
  lemma PiecesMembers(es: seq<Entry>, colPartitionSize: nat, n: nat)
    requires colPartitionSize > 0
    ensures forall j, e :: 0 <= j < n ==>
              (e in Pieces(es, colPartitionSize, n)[j] <==> e in es && e.col / colPartitionSize == j)
  {
    forall j | 0 <= j < n
      ensures forall e :: e in Pieces(es, colPartitionSize, n)[j] <==> e in es && e.col / colPartitionSize == j
    {
      InColPartitionMembers(es, colPartitionSize, j);
    }
  }

  /** The filter for partition `j` keeps exactly the entries whose column lies in partition `j`. */
  lemma {:induction false} InColPartitionMembers(es: seq<Entry>, colPartitionSize: nat, j: nat)
    requires colPartitionSize > 0
    ensures forall e :: e in InColPartition(es, colPartitionSize, j) <==> e in es && e.col / colPartitionSize == j
    decreases |es|
  {
    if |es| > 0 {
      var init := es[..|es| - 1];
      InColPartitionMembers(init, colPartitionSize, j);
      assert es == init + [es[|es| - 1]];
    }
  }

  /**
   * The tiles reproduce the product: row `r` of `m * v` is the sum, over the
   * column partitions, of local row `r % row_partition_size`'s dot product in
   * each tile of row partition `r / row_partition_size`.
   */
  lemma TilesReassembleProduct(m: CsrMatrix, rowPartitionSize: nat, colPartitionSize: nat,
                               r: nat, i: nat, k: nat, v: seq<int>)
    requires Valid(m) && ColsInRange(m) && rowPartitionSize > 0 && colPartitionSize > 0
    requires r < m.numRows && i == r / rowPartitionSize && k == r % rowPartitionSize
    requires IndicesBelow(m, |v|)
    ensures var p := PartitionGrid(m, rowPartitionSize, colPartitionSize);
            && i < p.numRowPartitions
            && k < PartSize(m.numRows, rowPartitionSize, i)
            && (forall j :: 0 <= j < p.numColPartitions ==> ColsBelow(LocalRows(p, i, k)[j], |v|))
            && DotSum(LocalRows(p, i, k), v) == RowDot(m, r, v)
  {
    var p := PartitionGrid(m, rowPartitionSize, colPartitionSize);
    var row := RowEntries(m, r);
    LocalRowsArePieces(m, rowPartitionSize, colPartitionSize, r, i, k);
    RowColBelowV(m, r, v);
    PiecesColsBelow(row, |v|, colPartitionSize, p.numColPartitions);
    DotSumIsWeightSums(Pieces(row, colPartitionSize, p.numColPartitions), v);
    PiecesWeights(row, ProductWeight(v), colPartitionSize, p.numColPartitions);
    RowColsInPartitions(m, colPartitionSize, r);
    BucketsSumWeight(row, ProductWeight(v), colPartitionSize, p.numColPartitions);
    DotIsWeightSum(row, v);
  }

  lemma RowColBelowV(m: CsrMatrix, r: nat, v: seq<int>)
    requires Valid(m) && r < m.numRows && IndicesBelow(m, |v|)
    ensures ColsBelow(RowEntries(m, r), |v|)
  {
    RowColsBelow(m, r, |v|);
  }
}
