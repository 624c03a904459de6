/**
 * The host's buffer through the kernel. The host cuts the matrix into row
 * partitions of `OB_SIZE = 1024 * NUM_PE` rows, so every row a lane sees
 * lands inside the lane's output bank; with that, the kernel's answer for
 * a row partition is the row sums of that partition's tiles.
 */
module HostKernel {
  import opened Errors
  import opened Csr
  import opened Tiling
  import opened Streams
  import opened Cpsr
  import opened Hbm
  import opened Loader
  import opened LaneDecode
  import opened Pipeline
  import opened Drain
  import opened HostLayout
  import Kernel

  /** A row below `packSize * bankSize` has its bank slot below `bankSize`. */
  lemma RowQuotientBelow(r: nat, packSize: nat, bankSize: nat)
    requires packSize > 0 && r < packSize * bankSize
    ensures r / packSize < bankSize
  {
    assert (r / packSize) * packSize <= r;
    MulLessCancel(r / packSize, bankSize, packSize);
  }

  /**
   * Lane `k`'s body of a tile with at most `packSize * ObBankSize` rows
   * holds only nonzeros of lane `k`'s rows, each with an output bank slot.
   */
  lemma LaneBodyFits(tile: CsrMatrix, packSize: nat, k: nat)
    requires Valid(tile) && 0 < packSize && k < packSize
    requires packSize * ObBankSize <= Word32 && tile.numRows <= packSize * ObBankSize
    ensures forall x :: 0 <= x < |LaneBody(tile, packSize, k)| ==>
              && LaneBody(tile, packSize, k)[x].token == NoToken
              && LaneBody(tile, packSize, k)[x].rowIndex % packSize == k
              && LaneBody(tile, packSize, k)[x].rowIndex / packSize < ObBankSize
  {
    var bound := packSize * ObBankSize;
    var ids := LaneRowIds(tile.numRows, packSize, k);
    LaneRowIdsShape(tile.numRows, packSize, k);
    LaneRowIdsBelow(tile.numRows, packSize, k);
    forall t | 0 <= t < |ids|
      ensures ids[t] % packSize == k && ids[t] < bound
    {
      DivModUnique(ids[t], packSize, t, k);
    }
    LaneNonZerosRows(tile, ids, packSize, k, bound);
    var body := LaneBody(tile, packSize, k);
    forall x | 0 <= x < |body|
      ensures body[x].rowIndex / packSize < ObBankSize
    {
      RowQuotientBelow(body[x].rowIndex, packSize, ObBankSize);
    }
  }

  /**
   * When every tile of row partition `i` has at most `packSize * ObBankSize`
   * rows, the bodies the host's buffer feeds lane `k` meet what the
   * kernel's engines need: no tokens, only lane `k`'s rows, every row in a
   * bank slot.
   */
  lemma TileBodiesFit(p: PartitionedCsr, packSize: nat, i: nat)
    requires GridValid(p) && 0 < packSize && packSize * ObBankSize <= Word32 && i < p.numRowPartitions
    requires forall j :: 0 <= j < p.numColPartitions ==> p.partitions[i][j].numRows <= packSize * ObBankSize
    ensures forall k :: 0 <= k < packSize ==> Kernel.LaneBodies(TileBodies(p, packSize, i)[k], packSize, k)
  {
    var bodies: seq<seq<seq<NonZero>>> := TileBodies(p, packSize, i);
    forall k | 0 <= k < packSize
      ensures Kernel.LaneBodies(bodies[k], packSize, k)
    {
      forall j | 0 <= j < p.numColPartitions
        ensures forall x :: 0 <= x < |bodies[k][j]| ==>
                  && bodies[k][j][x].token == NoToken
                  && bodies[k][j][x].rowIndex % packSize == k
                  && bodies[k][j][x].rowIndex / packSize < ObBankSize
      {
        LaneBodyFits(p.partitions[i][j], packSize, k);
      }
    }
  }

  /**
   * The corrected `spmv` run on the host's buffer for row partition `i`,
   * with row partitions of at most `packSize * ObBankSize` rows as the host
   * cuts them: it succeeds, and lane `s` of output word `w` is the sum,
   * over row `2 * packSize * w + s`'s nonzeros in that partition's tiles,
   * of each value times the vector value its column selects, modulo `2^32`.
   */
  lemma HostSpmvRows(p: PartitionedCsr, packSize: nat, i: nat, vectorIn: seq<Bits>, numElements: nat,
                     init: seq<int>, blank: seq<nat>, w: nat, s: nat)
    requires HostEncodable(p, packSize) && i < p.numRowPartitions
    requires packSize * ObBankSize <= Word32 && p.rowPartitionSize <= packSize * ObBankSize
    requires WordsWide(vectorIn, packSize) && |init| == VbBankSize && |blank| == 2 * packSize
    requires Banks(vectorIn, init, p.numColPartitions, packSize).Ok?
    requires Kernel.DrainInBounds(numElements, packSize) && w < DrainWords(numElements, packSize) && s < 2 * packSize
    ensures var matrix := FormattedMatrix(Build(p, 1, packSize).value);
            var r := Kernel.Spmv(matrix, vectorIn, i, numElements, p.numColPartitions, TotalPartitions(p),
                                 init, blank, packSize);
            && r.Ok? && |r.value| == DrainWords(numElements, packSize)
            && r.value[w][s]
               == RowTotal(ProductFrames(TileBodies(p, packSize, i)[s % packSize],
                                         Banks(vectorIn, init, p.numColPartitions, packSize).value, packSize),
                           Kernel.WordRow(w, s, packSize)) % Word32
  {
    var matrix := FormattedMatrix(Build(p, 1, packSize).value);
    MatrixLoaderReadsTiles(p, packSize, i);
    forall j | 0 <= j < p.numColPartitions
      ensures p.partitions[i][j].numRows <= packSize * ObBankSize
    {
      assert p.partitions[i][j].numRows == PartSize(p.totalNumRows, p.rowPartitionSize, i);
    }
    TileBodiesFit(p, packSize, i);
    Kernel.SpmvRows(matrix, vectorIn, i, numElements, p.numColPartitions, TotalPartitions(p), init, blank,
                    packSize, TileBodies(p, packSize, i), w, s);
  }
}
