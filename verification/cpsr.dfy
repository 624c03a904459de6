/**
 * `CPSRMatrix` (cyclic packed streams of rows): every tile of a partitioned
 * matrix is cut into `num_channels * pack_size` row streams, row `rid` going
 * to stream `rid % num_streams`, each row closed by a row-advance marker.
 * Stream `i` occupies pack slot `i % pack_size` of channel `i / pack_size`;
 * the streams of one channel are padded to a common length and stored one
 * packet per slot in consecutive channel words, and a two-word
 * partition-table entry per channel records where the tile starts and how
 * long each stream was before padding.
 */
module Cpsr {
  import opened Errors
  import opened Csr
  import opened Tiling
  import opened Streams

  /** A channel word: `pack_size` packets. */
  type Word = seq<Packet>

  datatype CpsrMatrix = CpsrMatrix(
    numChannels: nat,
    packSize: nat,
    rowPartitionSize: nat,
    colPartitionSize: nat,
    numRowPartitions: nat,
    numColPartitions: nat,
    totalNumRows: nat,
    totalNumCols: nat,
    numRowsLast: nat,
    numColsLast: nat,
    channelData: seq<seq<Word>>,
    partitionTables: seq<seq<Word>>)

  predicate WordsSized(words: seq<Word>, packSize: nat) {
    forall w :: 0 <= w < |words| ==> |words[w]| == packSize
  }

  /** `b` has `a`'s channel count, pack size and partition geometry. */
  predicate SameHeader(a: CpsrMatrix, b: CpsrMatrix) {
    && a.numChannels == b.numChannels && a.packSize == b.packSize
    && a.rowPartitionSize == b.rowPartitionSize && a.colPartitionSize == b.colPartitionSize
    && a.numRowPartitions == b.numRowPartitions && a.numColPartitions == b.numColPartitions
    && a.totalNumRows == b.totalNumRows && a.totalNumCols == b.totalNumCols
    && a.numRowsLast == b.numRowsLast && a.numColsLast == b.numColsLast
  }

  /** One data and one table vector per channel, every word `pack_size` packets wide. */
  predicate Shaped(c: CpsrMatrix) {
    && c.numChannels > 0 && c.packSize > 0
    && |c.channelData| == c.numChannels && |c.partitionTables| == c.numChannels
    && (forall ch :: 0 <= ch < c.numChannels ==> WordsSized(c.channelData[ch], c.packSize))
    && (forall ch :: 0 <= ch < c.numChannels ==> WordsSized(c.partitionTables[ch], c.packSize))
  }

  // ---------------------------------------------------------------------------
  // Packing
  // ---------------------------------------------------------------------------

  /**
   * Stream `i` of `numChannels * packSize` is written to channel
   * `i / packSize % numChannels`, slot `i % packSize`; the stream stored at
   * channel `ch`, slot `k` is therefore stream `ch * packSize + k`, and
   * every stream has its own slot.
   */
  lemma StreamPlacement(numChannels: nat, packSize: nat, ch: nat, k: nat)
    requires packSize > 0 && ch < numChannels && k < packSize
    ensures ch * packSize + k < numChannels * packSize
    ensures (ch * packSize + k) / packSize % numChannels == ch
    ensures (ch * packSize + k) % packSize == k
  {
    var i := ch * packSize + k;
    DivModUnique(i, packSize, ch, k);
    DivModUnique(ch, numChannels, 0, ch);
    MulMonotone(ch + 1, numChannels, packSize);
    assert (ch + 1) * packSize == ch * packSize + packSize;
  }

  /** Every stream index names the channel and slot it is read back from. */
  lemma StreamSlot(numChannels: nat, packSize: nat, i: nat)
    requires packSize > 0 && i < numChannels * packSize
    ensures i / packSize < numChannels
    ensures (i / packSize % numChannels) * packSize + i % packSize == i
  {
    var q := i / packSize;
    var rem := i % packSize;
    assert i == q * packSize + rem;
    MulLessCancel(q, numChannels, packSize);
    DivModUnique(q, numChannels, 0, q);
  }

  /** The stream stored in channel `ch`, slot `k`: stream `ch * packSize + k` of `numChannels * packSize`. */
  function Lane(tile: CsrMatrix, numChannels: nat, packSize: nat, ch: nat, k: nat): seq<Packet>
    requires Valid(tile) && packSize > 0 && ch < numChannels && k < packSize
  {
    MulMonotone(1, numChannels, packSize);
    Stream(tile, numChannels * packSize, ch * packSize + k)
  }

  /** The streams channel `ch` carries, slot by slot. */
  function ChannelStreams(tile: CsrMatrix, numChannels: nat, packSize: nat, ch: nat): (lanes: seq<seq<Packet>>)
    requires Valid(tile) && packSize > 0 && ch < numChannels
    ensures |lanes| == packSize
  {
    seq(packSize, k requires 0 <= k < packSize => Lane(tile, numChannels, packSize, ch, k))
  }

  /** Length of the longest stream: the channel's share of words for one tile. */
  function MaxLength(lanes: seq<seq<Packet>>): (n: nat)
    ensures forall k :: 0 <= k < |lanes| ==> |lanes[k]| <= n
    ensures n == 0 || exists k :: 0 <= k < |lanes| && |lanes[k]| == n
    decreases |lanes|
  {
    if |lanes| == 0 then 0
    else
      var rest := MaxLength(lanes[..|lanes| - 1]);
      var last := |lanes[|lanes| - 1]|;
      if last > rest then last else rest
  }

  /** Packet `j` of a stream padded with `Pad` to any length. */
  function PaddedAt(stream: seq<Packet>, j: nat): Packet {
    if j < |stream| then stream[j] else Pad
  }

  /** `len` words, word `j` holding packet `j` of every lane in the lane's slot. */
  function PackWords(lanes: seq<seq<Packet>>, len: nat): (ws: seq<Word>)
    ensures |ws| == len && WordsSized(ws, |lanes|)
  {
    seq(len, j requires 0 <= j < len =>
      seq(|lanes|, k requires 0 <= k < |lanes| => PaddedAt(lanes[k], j)))
  }

  /** First table word of an entry: the tile's start offset in slot 0, zeros elsewhere. */
  function StartWord(offset: nat, packSize: nat): (w: Word)
    ensures |w| == packSize
  {
    seq(packSize, k requires 0 <= k < packSize => if k == 0 then Packet(offset, 0) else Pad)
  }

  /** Second table word of an entry: each stream's pre-padding length in its slot. */
  function LengthWord(lanes: seq<seq<Packet>>): (w: Word)
    ensures |w| == |lanes|
  {
    seq(|lanes|, k requires 0 <= k < |lanes| => Packet(|lanes[k]|, 0))
  }

  /**
   * `append_with_CSR`: streamize a tile, add a two-word table entry per
   * channel and append each channel's streams, padded to the longest one.
   * Earlier words are kept, each channel grows by exactly its longest
   * stream, and nothing but the two vectors changes.
   */
  function AppendWithCsr(c: CpsrMatrix, tile: CsrMatrix): (r: CpsrMatrix)
    requires Shaped(c) && Valid(tile)
    ensures Shaped(r)
    ensures SameHeader(c, r)
    ensures forall ch :: 0 <= ch < c.numChannels ==>
              |r.partitionTables[ch]| == |c.partitionTables[ch]| + 2
              && IsPrefix(c.partitionTables[ch], r.partitionTables[ch])
    ensures forall ch :: 0 <= ch < c.numChannels ==>
              && IsPrefix(c.channelData[ch], r.channelData[ch])
              && |r.channelData[ch]|
                 == |c.channelData[ch]| + MaxLength(ChannelStreams(tile, c.numChannels, c.packSize, ch))
  {
    var nc := c.numChannels;
    var ps := c.packSize;
    var data := seq(nc, ch requires 0 <= ch < nc =>
                  var lanes := ChannelStreams(tile, nc, ps, ch);
                  c.channelData[ch] + PackWords(lanes, MaxLength(lanes)));
    var tables := seq(nc, ch requires 0 <= ch < nc =>
                    c.partitionTables[ch]
                    + [StartWord(|c.channelData[ch]|, ps), LengthWord(ChannelStreams(tile, nc, ps, ch))]);
    c.(channelData := data, partitionTables := tables)
  }

  /**
   * What one append writes for channel `ch`, slot `k`: the table entry's
   * first word holds the channel's old size, its second the length of stream
   * `ch * packSize + k`, and the new words carry that stream followed by
   * padding up to the channel's longest stream.
   */
  lemma AppendedEntry(c: CpsrMatrix, tile: CsrMatrix, ch: nat, k: nat)
    requires Shaped(c) && Valid(tile) && ch < c.numChannels && k < c.packSize
    ensures var r := AppendWithCsr(c, tile);
            var at := |c.partitionTables[ch]|;
            var stream := Lane(tile, c.numChannels, c.packSize, ch, k);
            && r.partitionTables[ch][at][0] == Packet(|c.channelData[ch]|, 0)
            && r.partitionTables[ch][at + 1][k] == Packet(|stream|, 0)
            && |c.channelData[ch]| + |stream| <= |r.channelData[ch]|
            && (forall j :: 0 <= j < |r.channelData[ch]| - |c.channelData[ch]| ==>
                  r.channelData[ch][|c.channelData[ch]| + j][k] == if j < |stream| then stream[j] else Pad)
  {
  }

  // ---------------------------------------------------------------------------
  // The constructor
  // ---------------------------------------------------------------------------

  /** The tiles of a grid in the order the constructor appends them: row partition by row partition. */
  function RowMajor(grid: seq<seq<CsrMatrix>>): seq<CsrMatrix>
    decreases |grid|
  {
    if |grid| == 0 then [] else RowMajor(grid[..|grid| - 1]) + grid[|grid| - 1]
  }

  /** Tile `[i][j]` of a grid `w` tiles wide is appended `i * w + j`-th. */
  lemma {:induction false} RowMajorIndex(grid: seq<seq<CsrMatrix>>, w: nat, i: nat, j: nat)
    requires forall x :: 0 <= x < |grid| ==> |grid[x]| == w
    requires i < |grid| && j < w
    ensures |RowMajor(grid)| == |grid| * w
    ensures i * w + j < |RowMajor(grid)|
    ensures RowMajor(grid)[i * w + j] == grid[i][j]
    decreases |grid|
  {
    var n := |grid|;
    var prefix := grid[..n - 1];
    var front := RowMajor(prefix);
    RowMajorLength(prefix, w);
    var base := (n - 1) * w;
    assert n * w == base + w;
    assert RowMajor(grid) == front + grid[n - 1];
    if i < n - 1 {
      RowMajorIndex(prefix, w, i, j);
      assert prefix[i] == grid[i];
    } else {
      assert i * w == base;
    }
  }

  lemma {:induction false} RowMajorLength(grid: seq<seq<CsrMatrix>>, w: nat)
    requires forall x :: 0 <= x < |grid| ==> |grid[x]| == w
    ensures |RowMajor(grid)| == |grid| * w
    decreases |grid|
  {
    if |grid| > 0 {
      RowMajorLength(grid[..|grid| - 1], w);
      assert |grid| * w == (|grid| - 1) * w + w;
    }
  }

  /** Every tile appended comes from the grid. */
  lemma {:induction false} RowMajorMembers(grid: seq<seq<CsrMatrix>>, t: nat)
    requires t < |RowMajor(grid)|
    ensures exists i, j :: 0 <= i < |grid| && 0 <= j < |grid[i]| && RowMajor(grid)[t] == grid[i][j]
    decreases |grid|
  {
    var n := |grid|;
    var prefix := grid[..n - 1];
    if t < |RowMajor(prefix)| {
      RowMajorMembers(prefix, t);
      var i, j :| 0 <= i < |prefix| && 0 <= j < |prefix[i]| && RowMajor(prefix)[t] == prefix[i][j];
      assert grid[i][j] == prefix[i][j];
    } else {
      var j := t - |RowMajor(prefix)|;
      assert RowMajor(grid)[t] == grid[n - 1][j];
    }
  }

  predicate AllValid(tiles: seq<CsrMatrix>) {
    forall t :: 0 <= t < |tiles| ==> Valid(tiles[t])
  }

  /** The encoder's state after appending `tiles` in order. */
  function AppendAll(c: CpsrMatrix, tiles: seq<CsrMatrix>): (r: CpsrMatrix)
    requires Shaped(c) && AllValid(tiles)
    ensures Shaped(r)
    ensures SameHeader(c, r)
    ensures forall ch :: 0 <= ch < c.numChannels ==>
              |r.partitionTables[ch]| == |c.partitionTables[ch]| + 2 * |tiles|
    decreases |tiles|
  {
    if |tiles| == 0 then c
    else AppendWithCsr(AppendAll(c, tiles[..|tiles| - 1]), tiles[|tiles| - 1])
  }

  /**
   * Later appends keep what tile `t`'s append wrote: its table entry and its
   * channel words are a prefix of the final vectors.
   */
  lemma AppendAllKeeps(c: CpsrMatrix, tiles: seq<CsrMatrix>, t: nat, ch: nat)
    requires Shaped(c) && AllValid(tiles) && t < |tiles| && ch < c.numChannels
    ensures var step := AppendWithCsr(AppendAll(c, tiles[..t]), tiles[t]);
            var r := AppendAll(c, tiles);
            && IsPrefix(step.partitionTables[ch], r.partitionTables[ch])
            && IsPrefix(step.channelData[ch], r.channelData[ch])
  {
    AppendAllKeepsTable(c, tiles, t, ch);
    AppendAllKeepsData(c, tiles, t, ch);
  }

  lemma {:induction false} AppendAllKeepsTable(c: CpsrMatrix, tiles: seq<CsrMatrix>, t: nat, ch: nat)
    requires Shaped(c) && AllValid(tiles) && t < |tiles| && ch < c.numChannels
    ensures var step := AppendWithCsr(AppendAll(c, tiles[..t]), tiles[t]).partitionTables[ch];
            var r := AppendAll(c, tiles).partitionTables[ch];
            IsPrefix(step, r)
    decreases |tiles|
  {
    var n := |tiles|;
    var prefix := tiles[..n - 1];
    var mid := AppendAll(c, prefix);
    var r := AppendAll(c, tiles);
    assert r == AppendWithCsr(mid, tiles[n - 1]);
    var step := AppendWithCsr(AppendAll(c, tiles[..t]), tiles[t]);
    if t == n - 1 {
      assert prefix == tiles[..t];
      assert step == r;
    } else {
      assert prefix[..t] == tiles[..t] && prefix[t] == tiles[t];
      AppendAllKeepsTable(c, prefix, t, ch);
      PrefixOfPrefix(step.partitionTables[ch], mid.partitionTables[ch], r.partitionTables[ch]);
    }
  }

  lemma {:induction false} AppendAllKeepsData(c: CpsrMatrix, tiles: seq<CsrMatrix>, t: nat, ch: nat)
    requires Shaped(c) && AllValid(tiles) && t < |tiles| && ch < c.numChannels
    ensures var step := AppendWithCsr(AppendAll(c, tiles[..t]), tiles[t]).channelData[ch];
            var r := AppendAll(c, tiles).channelData[ch];
            IsPrefix(step, r)
    decreases |tiles|
  {
    var n := |tiles|;
    var prefix := tiles[..n - 1];
    var mid := AppendAll(c, prefix);
    var r := AppendAll(c, tiles);
    assert r == AppendWithCsr(mid, tiles[n - 1]);
    var step := AppendWithCsr(AppendAll(c, tiles[..t]), tiles[t]);
    if t == n - 1 {
      assert prefix == tiles[..t];
      assert step == r;
    } else {
      assert prefix[..t] == tiles[..t] && prefix[t] == tiles[t];
      AppendAllKeepsData(c, prefix, t, ch);
      PrefixOfPrefix(step.channelData[ch], mid.channelData[ch], r.channelData[ch]);
    }
  }

  /** `a` is an initial segment of `b`: what was written is never changed. */
  ghost predicate IsPrefix<T>(a: seq<T>, b: seq<T>) {
    |a| <= |b| && forall x :: 0 <= x < |a| ==> b[x] == a[x]
  }

  lemma PrefixOfPrefix<T>(a: seq<T>, b: seq<T>, c: seq<T>)
    requires IsPrefix(a, b) && IsPrefix(b, c)
    ensures IsPrefix(a, c)
  {
  }

  /** Empty channel data and tables for `numChannels` channels. */
  function Initial(p: PartitionedCsr, numChannels: nat, packSize: nat): (c: CpsrMatrix)
    requires numChannels > 0 && packSize > 0
    ensures Shaped(c) && |c.channelData| == numChannels && |c.partitionTables| == numChannels
    ensures forall ch :: 0 <= ch < numChannels ==> c.channelData[ch] == [] && c.partitionTables[ch] == []
  {
    CpsrMatrix(numChannels, packSize, p.rowPartitionSize, p.colPartitionSize,
               p.numRowPartitions, p.numColPartitions, p.totalNumRows, p.totalNumCols,
               p.numRowsLast, p.numColsLast,
               seq(numChannels, _ => []), seq(numChannels, _ => []))
  }

  /** A tile row count every stream can share equally. */
  predicate SplitsEvenly(rows: nat, numStreams: nat)
    requires numStreams > 0
  {
    rows % numStreams == 0
  }

  /**
   * The `CPSRMatrix` constructor. A zero channel count reaches a modulo by
   * zero (undefined behaviour, modelled as `DivisionByZero`); a row
   * partition size, or a nonzero last-partition size, that the stream count
   * does not divide is rejected; otherwise every tile is appended in
   * row-major order.
   */
  function Build(p: PartitionedCsr, numChannels: nat, packSize: nat): (r: Result<CpsrMatrix>)
    requires GridValid(p) && packSize > 0
    ensures numChannels == 0 <==> r == Err(DivisionByZero)
    ensures numChannels > 0 ==>
              (r.Err? <==> !SplitsEvenly(p.rowPartitionSize, numChannels * packSize)
                           || (p.totalNumRows % p.rowPartitionSize > 0
                               && !SplitsEvenly(p.totalNumRows % p.rowPartitionSize, numChannels * packSize)))
    ensures r.Err? && numChannels > 0 ==> r.error == InvalidArgument("partition size too small")
    ensures r.Ok? ==>
              && Shaped(r.value)
              && r.value.numChannels == numChannels && r.value.packSize == packSize
              && r.value.rowPartitionSize == p.rowPartitionSize && r.value.colPartitionSize == p.colPartitionSize
              && r.value.numRowPartitions == p.numRowPartitions && r.value.numColPartitions == p.numColPartitions
              && r.value.totalNumRows == p.totalNumRows && r.value.totalNumCols == p.totalNumCols
              && r.value.numRowsLast == p.numRowsLast && r.value.numColsLast == p.numColsLast
  {
    if numChannels == 0 then Err(DivisionByZero)
    else
      MulMonotone(1, numChannels, packSize);
      var ns := numChannels * packSize;
      if p.rowPartitionSize % ns != 0 then Err(InvalidArgument("partition size too small"))
      else if p.totalNumRows % p.rowPartitionSize > 0 && (p.totalNumRows % p.rowPartitionSize) % ns != 0 then
        Err(InvalidArgument("partition size too small"))
      else
        GridTilesValid(p);
        Ok(AppendAll(Initial(p, numChannels, packSize), RowMajor(p.partitions)))
  }

  lemma GridTilesValid(p: PartitionedCsr)
    requires GridValid(p)
    ensures AllValid(RowMajor(p.partitions))
  {
    forall t | 0 <= t < |RowMajor(p.partitions)|
      ensures Valid(RowMajor(p.partitions)[t])
    {
      RowMajorMembers(p.partitions, t);
    }
  }

  /**
   * Entry `t` of channel `ch`'s table decodes, in slot `k`, to `stream`:
   * its second word holds the stream's length, its first word where the
   * tile's words start, and that many words from there carry the stream in
   * slot `k`.
   */
  predicate EntryReadsBack(r: CpsrMatrix, t: nat, ch: nat, k: nat, stream: seq<Packet>)
    requires Shaped(r) && ch < r.numChannels && k < r.packSize
  {
    && 2 * t + 1 < |r.partitionTables[ch]|
    && r.partitionTables[ch][2 * t + 1][k].index == |stream|
    && r.partitionTables[ch][2 * t][0].index + |stream| <= |r.channelData[ch]|
    && forall j :: 0 <= j < |stream| ==>
         r.channelData[ch][r.partitionTables[ch][2 * t][0].index + j][k] == stream[j]
  }

  /** One append makes the new entry decode to the appended tile's streams. */
  lemma AppendReadBack(c: CpsrMatrix, tile: CsrMatrix, t: nat, ch: nat, k: nat)
    requires Shaped(c) && Valid(tile) && ch < c.numChannels && k < c.packSize
    requires |c.partitionTables[ch]| == 2 * t
    ensures EntryReadsBack(AppendWithCsr(c, tile), t, ch, k, Lane(tile, c.numChannels, c.packSize, ch, k))
  {
    AppendedEntry(c, tile, ch, k);
  }

  /** Extending both vectors of a channel keeps every entry decoding as before. */
  lemma ReadBackExtends(a: CpsrMatrix, b: CpsrMatrix, t: nat, ch: nat, k: nat, stream: seq<Packet>)
    requires Shaped(a) && Shaped(b) && ch < a.numChannels && k < a.packSize
    requires b.numChannels == a.numChannels && b.packSize == a.packSize
    requires IsPrefix(a.partitionTables[ch], b.partitionTables[ch])
    requires IsPrefix(a.channelData[ch], b.channelData[ch])
    requires EntryReadsBack(a, t, ch, k, stream)
    ensures EntryReadsBack(b, t, ch, k, stream)
  {
    var start := a.partitionTables[ch][2 * t][0].index;
    assert b.partitionTables[ch][2 * t] == a.partitionTables[ch][2 * t];
    assert b.partitionTables[ch][2 * t + 1] == a.partitionTables[ch][2 * t + 1];
    forall j | 0 <= j < |stream|
      ensures b.channelData[ch][start + j][k] == stream[j]
    {
      assert b.channelData[ch][start + j] == a.channelData[ch][start + j];
    }
  }

  /** Appending `tiles` to empty tables leaves tile `t`'s streams decodable from entry `t`. */
  lemma AppendAllReadBack(c: CpsrMatrix, tiles: seq<CsrMatrix>, t: nat, ch: nat, k: nat)
    requires Shaped(c) && AllValid(tiles) && t < |tiles| && ch < c.numChannels && k < c.packSize
    requires c.partitionTables[ch] == []
    ensures EntryReadsBack(AppendAll(c, tiles), t, ch, k, Lane(tiles[t], c.numChannels, c.packSize, ch, k))
  {
    var mid := AppendAll(c, tiles[..t]);
    var step := AppendWithCsr(mid, tiles[t]);
    var r := AppendAll(c, tiles);
    AppendReadBack(mid, tiles[t], t, ch, k);
    AppendAllKeepsTable(c, tiles, t, ch);
    AppendAllKeepsData(c, tiles, t, ch);
    ReadBackExtends(step, r, t, ch, k, Lane(tiles[t], c.numChannels, c.packSize, ch, k));
  }

  /**
   * Decoding the layout the constructor builds: for tile `t` in row-major
   * order, channel `ch` and slot `k`, table words `2t` and `2t + 1` locate
   * stream `ch * packSize + k` of the tile, and the table holds one entry
   * per tile.
   */
  lemma LayoutReadBack(p: PartitionedCsr, numChannels: nat, packSize: nat, t: nat, ch: nat, k: nat)
    requires GridValid(p) && packSize > 0 && Build(p, numChannels, packSize).Ok?
    requires t < p.numRowPartitions * p.numColPartitions && ch < numChannels && k < packSize
    ensures numChannels * packSize > 0
    ensures AllValid(RowMajor(p.partitions)) && t < |RowMajor(p.partitions)|
    ensures |Build(p, numChannels, packSize).value.partitionTables[ch]|
            == 2 * (p.numRowPartitions * p.numColPartitions)
    ensures EntryReadsBack(Build(p, numChannels, packSize).value, t, ch, k,
                           Stream(RowMajor(p.partitions)[t], numChannels * packSize, ch * packSize + k))
  {
    GridTilesValid(p);
    RowMajorLength(p.partitions, p.numColPartitions);
    var c0 := Initial(p, numChannels, packSize);
    assert Build(p, numChannels, packSize).value == AppendAll(c0, RowMajor(p.partitions));
    AppendAllReadBack(c0, RowMajor(p.partitions), t, ch, k);
  }

  /**
   * The constructor's checks make every tile's rows a multiple of the stream
   * count, so every stream of every tile holds the same number of markers:
   * `rows / (numChannels * packSize)`.
   */
  lemma BuildEvenStreams(p: PartitionedCsr, numChannels: nat, packSize: nat, i: nat, j: nat, s: nat)
    requires GridValid(p) && packSize > 0 && Build(p, numChannels, packSize).Ok?
    requires i < p.numRowPartitions && j < p.numColPartitions && s < numChannels * packSize
    requires IndicesBelow(p.partitions[i][j], NextRowMarker)
    ensures p.partitions[i][j].numRows % (numChannels * packSize) == 0
    ensures CountMarkers(Stream(p.partitions[i][j], numChannels * packSize, s))
            == p.partitions[i][j].numRows / (numChannels * packSize)
  {
    var ns := numChannels * packSize;
    var tile := p.partitions[i][j];
    var n := p.totalNumRows;
    var d := p.rowPartitionSize;
    assert tile.numRows == PartSize(n, d, i);
    assert SplitsEvenly(d, ns);
    if n % d > 0 {
      assert SplitsEvenly(n % d, ns);
    }
    MarkersCountRows(tile, ns, s, tile.numRows);
    EvenLanes(tile.numRows, ns, s);
  }
}
