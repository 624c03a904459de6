/**
 * The host's memory layout for the SpMV kernel and what the kernel's matrix
 * loader reads from it. The host encodes the partitioned matrix on one
 * channel and lays channel 0's partition table and then its data into one
 * buffer, each word as its `channel_word_t` memory image; the data region
 * therefore starts after `2 * total_num_partitions` words, where the kernel
 * looks for it. The loader then hands lane `k`, for every column partition
 * of the row partition, exactly the nonzeros of the tile's rows
 * `k, k + pack_size, ...` tagged with their rows.
 */
module HostLayout {
  import opened Errors
  import opened Csr
  import opened Tiling
  import opened Streams
  import opened Cpsr
  import opened Hbm
  import opened Loader
  import opened LaneDecode

  /** The host's partition sizes and pack size: `NUM_PE == PACK_SIZE == 8`. */
  const NumPe: nat := 8
  const HostPackSize: nat := NumPe
  const VbSize: nat := 1024
  const ObSize: nat := 1024 * NumPe

  /** Words as their memory images, in order. */
  function Image(words: seq<Word>): (m: seq<Bits>)
    ensures |m| == |words| && forall i :: 0 <= i < |words| ==> m[i] == WordBits(words[i])
  {
    seq(|words|, i requires 0 <= i < |words| => WordBits(words[i]))
  }

  /** `formatted_matrix`: channel 0's partition table, then channel 0's data, as memory images. */
  function FormattedMatrix(c: CpsrMatrix): (m: seq<Bits>)
    requires Shaped(c)
  {
    Image(c.partitionTables[0] + c.channelData[0])
  }

  /** The scalar arguments the host passes to the kernel. */
  datatype SpmvArgs = SpmvArgs(rowPartitionId: nat, partitionNumRows: nat, numColPartitions: nat,
                               totalNumPartitions: nat)

  /**
   * The host's kernel arguments: the first row partition, at most `OB_SIZE`
   * rows of it, and the partition counts of the encoded matrix.
   */
  function HostArgs(c: CpsrMatrix, numRows: nat): (a: SpmvArgs)
    ensures a.rowPartitionId == 0
    ensures a.partitionNumRows <= ObSize && a.partitionNumRows <= numRows
    ensures a.partitionNumRows == ObSize || a.partitionNumRows == numRows
    ensures a.totalNumPartitions == c.numRowPartitions * c.numColPartitions
  {
    SpmvArgs(0, if numRows < ObSize then numRows else ObSize, c.numColPartitions,
             c.numColPartitions * c.numRowPartitions)
  }

  // ---------------------------------------------------------------------------
  // One table entry
  // ---------------------------------------------------------------------------

  /**
   * Entry `t` of a table over `data` decodes, slot by slot, to `lanes`: slot
   * `k` of the entry's second word holds lane `k`'s length, and lane `k`'s
   * packets sit in slot `k` of the data words from the start the first word
   * records.
   */
  predicate Encodes(table: seq<Word>, data: seq<Word>, t: nat, lanes: seq<seq<Packet>>, packSize: nat) {
    && packSize > 0 && WordsSized(table, packSize) && WordsSized(data, packSize)
    && 2 * t + 1 < |table| && |lanes| == packSize
    && forall k :: 0 <= k < packSize ==>
         && table[2 * t + 1][k].index == |lanes[k]|
         && table[2 * t][0].index + |lanes[k]| <= |data|
         && forall i :: 0 <= i < |lanes[k]| ==> data[table[2 * t][0].index + i][k] == lanes[k][i]
  }

  /** The encoder's read-back guarantee, for channel 0. */
  lemma ChannelZero(c: CpsrMatrix, t: nat, lanes: seq<seq<Packet>>)
    requires Shaped(c) && |lanes| == c.packSize
    requires forall k :: 0 <= k < c.packSize ==> EntryReadsBack(c, t, 0, k, lanes[k])
    ensures Encodes(c.partitionTables[0], c.channelData[0], t, lanes, c.packSize)
  {
    assert EntryReadsBack(c, t, 0, 0, lanes[0]);
  }

  function Lengths(lanes: seq<seq<Packet>>): (ls: seq<nat>)
    ensures |ls| == |lanes| && forall k :: 0 <= k < |lanes| ==> ls[k] == |lanes[k]|
  {
    seq(|lanes|, k requires 0 <= k < |lanes| => |lanes[k]|)
  }

  /** The partition information an entry should yield: its start, each lane's length, the longest. */
  function EntryInfo(table: seq<Word>, data: seq<Word>, t: nat, lanes: seq<seq<Packet>>, packSize: nat): PartitionInfo
    requires Encodes(table, data, t, lanes, packSize)
  {
    PartitionInfo(table[2 * t][0].index, Lengths(lanes), Max(Lengths(lanes)))
  }

  /** Slot indices of a word, each modulo `2^32`. */
  function IndexFields(w: Word): (fs: seq<nat>)
    ensures |fs| == |w| && forall k :: 0 <= k < |w| ==> fs[k] == w[k].index % Word32
  {
    seq(|w|, k requires 0 <= k < |w| => w[k].index % Word32)
  }

  /** Reading a table entry whose two words are the images of `w0` and `w1`. */
  lemma TableWordsRead(m: seq<Bits>, t: nat, w0: Word, w1: Word, packSize: nat)
    requires WordsWide(m, packSize) && packSize > 0 && 2 * t + 1 < |m|
    requires |w0| == packSize && |w1| == packSize
    requires m[2 * t] == WordBits(w0) && m[2 * t + 1] == WordBits(w1)
    ensures ReadPartitionTable(m, t, packSize)
            == Ok(PartitionInfo(w0[0].index % Word32, IndexFields(w1), Max(IndexFields(w1))))
  {
    StartField(w0);
    var lengths := seq(packSize, k requires 0 <= k < packSize => AsMetadataLength(m[2 * t + 1], k));
    forall k | 0 <= k < packSize
      ensures lengths[k] == IndexFields(w1)[k]
    {
      PacketFields(w1, k);
    }
    assert lengths == IndexFields(w1);
  }

  /** Length fields below `2^32` read back as the lengths. */
  lemma LengthFields(w: Word, lanes: seq<seq<Packet>>)
    requires |w| == |lanes|
    requires forall k :: 0 <= k < |w| ==> w[k].index == |lanes[k]| < Word32
    ensures IndexFields(w) == Lengths(lanes)
  {
    forall k | 0 <= k < |w|
      ensures IndexFields(w)[k] == Lengths(lanes)[k]
    {
      SmallMod(|lanes[k]|, Word32);
    }
  }

  /** A buffer of `table` then `data` with 32-bit addresses. */
  predicate Laid(m: seq<Bits>, table: seq<Word>, data: seq<Word>) {
    && m == Image(table + data)
    && |table| + |data| < Word32
  }

  /**
   * The kernel reads entry `t` of the table back: the start offset the host
   * stored, each lane's length, and the longest of them.
   */
  lemma TableRead(m: seq<Bits>, table: seq<Word>, data: seq<Word>, t: nat, lanes: seq<seq<Packet>>, packSize: nat)
    requires Encodes(table, data, t, lanes, packSize) && Laid(m, table, data)
    ensures WordsWide(m, packSize)
    ensures ReadPartitionTable(m, t, packSize) == Ok(EntryInfo(table, data, t, lanes, packSize))
  {
    var w0 := table[2 * t];
    var w1 := table[2 * t + 1];
    assert (table + data)[2 * t] == w0 && (table + data)[2 * t + 1] == w1;
    assert forall i :: 0 <= i < |m| ==> |(table + data)[i]| == packSize;
    TableWordsRead(m, t, w0, w1, packSize);
    StartFits(table, data, t, lanes, packSize);
    SmallMod(w0[0].index, Word32);
    LengthFields(w1, lanes);
  }

  /** The start offset lies within the data. */
  lemma StartFits(table: seq<Word>, data: seq<Word>, t: nat, lanes: seq<seq<Packet>>, packSize: nat)
    requires Encodes(table, data, t, lanes, packSize)
    ensures table[2 * t][0].index <= |data|
  {
    var k := 0;
    assert table[2 * t][0].index + |lanes[k]| <= |data|;
  }

  /** Slot `k` of data word `i` of an entry reads back as packet `i` of lane `k`, modulo `2^32`. */
  lemma DataWordRead(m: seq<Bits>, table: seq<Word>, data: seq<Word>, t: nat, lanes: seq<seq<Packet>>,
                     packSize: nat, k: nat, i: nat)
    requires Encodes(table, data, t, lanes, packSize) && Laid(m, table, data)
    requires k < packSize && i < |lanes[k]|
    ensures |table| + table[2 * t][0].index + i < |m|
    ensures ParsePacket(m[|table| + table[2 * t][0].index + i], k) == Wrap(lanes[k][i])
  {
    var o := table[2 * t][0].index;
    var word := data[o + i];
    assert (table + data)[|table| + o + i] == word;
    PacketFields(word, k);
  }

  /** Item `i` lane `k` fetches is packet `i` of its stream, modulo `2^32`. */
  lemma FetchedAt(m: seq<Bits>, table: seq<Word>, data: seq<Word>, t: nat, lanes: seq<seq<Packet>>,
                  packSize: nat, k: nat, i: nat)
    requires Encodes(table, data, t, lanes, packSize) && Laid(m, table, data) && k < packSize
    requires WordsWide(m, packSize)
    requires DataInRange(m, |table|, EntryInfo(table, data, t, lanes, packSize))
    requires i < |lanes[k]|
    ensures |lanes[k]| <= EntryInfo(table, data, t, lanes, packSize).maxLength
    ensures Fetched(m, |table|, EntryInfo(table, data, t, lanes, packSize), k, packSize, |lanes[k]|)[i]
            == Wrap(lanes[k][i])
  {
    DataWordRead(m, table, data, t, lanes, packSize, k, i);
  }

  /** Lane `k` fetches the kernel's view of its own stream. */
  lemma LaneFetch(m: seq<Bits>, table: seq<Word>, data: seq<Word>, t: nat, lanes: seq<seq<Packet>>,
                  packSize: nat, k: nat)
    requires Encodes(table, data, t, lanes, packSize) && Laid(m, table, data) && k < packSize
    requires WordsWide(m, packSize)
    requires DataInRange(m, |table|, EntryInfo(table, data, t, lanes, packSize))
    ensures Fetched(m, |table|, EntryInfo(table, data, t, lanes, packSize), k, packSize, |lanes[k]|)
            == WrapAll(lanes[k])
  {
    var fetched := Fetched(m, |table|, EntryInfo(table, data, t, lanes, packSize), k, packSize, |lanes[k]|);
    forall i | 0 <= i < |lanes[k]|
      ensures fetched[i] == Wrap(lanes[k][i])
    {
      FetchedAt(m, table, data, t, lanes, packSize, k, i);
    }
  }

  /** The longest lane's data, and so every lane's, lies in the buffer. */
  lemma EntryInRange(m: seq<Bits>, table: seq<Word>, data: seq<Word>, t: nat, lanes: seq<seq<Packet>>, packSize: nat)
    requires Encodes(table, data, t, lanes, packSize) && Laid(m, table, data)
    ensures DataInRange(m, |table|, EntryInfo(table, data, t, lanes, packSize))
  {
    var info := EntryInfo(table, data, t, lanes, packSize);
    if info.maxLength > 0 {
      var k :| 0 <= k < packSize && Lengths(lanes)[k] == info.maxLength;
    }
  }

  /** Every lane makes of entry `t`'s data what it makes of its own stream. */
  lemma PartitionRead(m: seq<Bits>, table: seq<Word>, data: seq<Word>, t: nat, lanes: seq<seq<Packet>>, packSize: nat)
    requires Encodes(table, data, t, lanes, packSize) && Laid(m, table, data)
    requires WordsWide(m, packSize)
    ensures LoadPartition(m, |table|, EntryInfo(table, data, t, lanes, packSize), packSize)
            == Ok(seq(packSize, k requires 0 <= k < packSize =>
                    [StartNz] + Run(WrapAll(lanes[k]), LaneState(k % Word32, []), packSize).out + [NextNz]))
  {
    var info := EntryInfo(table, data, t, lanes, packSize);
    EntryInRange(m, table, data, t, lanes, packSize);
    var frames := seq(packSize, k requires 0 <= k < packSize =>
                    [StartNz] + Run(WrapAll(lanes[k]), LaneState(k % Word32, []), packSize).out + [NextNz]);
    forall k | 0 <= k < packSize
      ensures PartitionLane(m, |table|, info, k, packSize) == frames[k]
    {
      LaneFetch(m, table, data, t, lanes, packSize, k);
    }
    assert LoadPartition(m, |table|, info, packSize).value == frames;
  }

  // ---------------------------------------------------------------------------
  // A row partition
  // ---------------------------------------------------------------------------

  /** The streams of a tile cut into `packSize` streams, one per lane. */
  function TileLanes(tile: CsrMatrix, packSize: nat): (lanes: seq<seq<Packet>>)
    requires Valid(tile) && packSize > 0
    ensures |lanes| == packSize
  {
    seq(packSize, k requires 0 <= k < packSize => Stream(tile, packSize, k))
  }

  /** What lane `k` should receive for a tile: its rows `k, k + packSize, ...`, in order. */
  function LaneBody(tile: CsrMatrix, packSize: nat, k: nat): seq<NonZero>
    requires Valid(tile) && packSize > 0
  {
    LaneRowIdsBelow(tile.numRows, packSize, k);
    LaneNonZeros(tile, LaneRowIds(tile.numRows, packSize, k))
  }

  /** Every tile's column indices stay below the marker. */
  predicate GridIndicesBelow(p: PartitionedCsr, bound: nat) {
    forall i, j :: 0 <= i < |p.partitions| && 0 <= j < |p.partitions[i]| ==> IndicesBelow(p.partitions[i][j], bound)
  }

  /** The host's single-channel encoding of a grid whose buffer is 32-bit addressable. */
  predicate HostEncodable(p: PartitionedCsr, packSize: nat) {
    && GridValid(p) && packSize > 0
    && Build(p, 1, packSize).Ok?
    && GridIndicesBelow(p, NextRowMarker)
    && |Build(p, 1, packSize).value.partitionTables[0]| + |Build(p, 1, packSize).value.channelData[0]| < Word32
  }

  /** Entry `t` of the single-channel table decodes to tile `t`'s streams. */
  lemma TileEncoded(p: PartitionedCsr, packSize: nat, t: nat)
    requires GridValid(p) && packSize > 0 && Build(p, 1, packSize).Ok?
    requires t < p.numRowPartitions * p.numColPartitions
    ensures AllValid(RowMajor(p.partitions)) && t < |RowMajor(p.partitions)|
    ensures var c := Build(p, 1, packSize).value;
            && |c.partitionTables[0]| == 2 * (p.numRowPartitions * p.numColPartitions)
            && Encodes(c.partitionTables[0], c.channelData[0], t, TileLanes(RowMajor(p.partitions)[t], packSize), packSize)
  {
    var c := Build(p, 1, packSize).value;
    GridTilesValid(p);
    RowMajorLength(p.partitions, p.numColPartitions);
    var lanes := TileLanes(RowMajor(p.partitions)[t], packSize);
    forall k | 0 <= k < packSize
      ensures EntryReadsBack(c, t, 0, k, lanes[k])
    {
      LayoutReadBack(p, 1, packSize, t, 0, k);
    }
    LayoutReadBack(p, 1, packSize, t, 0, 0);
    ChannelZero(c, t, lanes);
  }

  /** Every lane's frame for a tile: start, the lane's nonzeros, next. */
  function TileFrameLanes(tile: CsrMatrix, packSize: nat): (lanes: seq<seq<NonZero>>)
    requires Valid(tile) && packSize > 0
    ensures |lanes| == packSize
    ensures forall k :: 0 <= k < packSize ==> lanes[k] == [StartNz] + LaneBody(tile, packSize, k) + [NextNz]
  {
    seq(packSize, k requires 0 <= k < packSize => [StartNz] + LaneBody(tile, packSize, k) + [NextNz])
  }

  /** Each lane's frame for a tile encoded at entry `t`. */
  lemma TileFrames(m: seq<Bits>, table: seq<Word>, data: seq<Word>, t: nat, tile: CsrMatrix, packSize: nat)
    requires Valid(tile) && packSize > 0 && IndicesBelow(tile, NextRowMarker)
    requires Encodes(table, data, t, TileLanes(tile, packSize), packSize) && Laid(m, table, data)
    requires WordsWide(m, packSize)
    ensures LoadPartition(m, |table|, EntryInfo(table, data, t, TileLanes(tile, packSize), packSize), packSize)
            == Ok(TileFrameLanes(tile, packSize))
  {
    var lanes := TileLanes(tile, packSize);
    PartitionRead(m, table, data, t, lanes, packSize);
    var read := seq(packSize, k requires 0 <= k < packSize =>
                  [StartNz] + Run(WrapAll(lanes[k]), LaneState(k % Word32, []), packSize).out + [NextNz]);
    var expected := TileFrameLanes(tile, packSize);
    forall k | 0 <= k < packSize
      ensures read[k] == expected[k]
    {
      DecodeStream(tile, packSize, k);
    }
    assert read == expected;
  }

  /** What lane `k` holds after the first `j` column partitions of row partition `i`. */
  function ExpectedColumns(p: PartitionedCsr, packSize: nat, i: nat, j: nat, k: nat): seq<NonZero>
    requires GridValid(p) && packSize > 0 && i < p.numRowPartitions && j <= p.numColPartitions
  {
    Frames(ColumnBodies(p, packSize, i, j, k))
  }

  /** Lane `k`'s bodies in the first `j` tiles of row partition `i`. */
  function ColumnBodies(p: PartitionedCsr, packSize: nat, i: nat, j: nat, k: nat): (bodies: seq<seq<NonZero>>)
    requires GridValid(p) && packSize > 0 && i < p.numRowPartitions && j <= p.numColPartitions
    ensures |bodies| == j && forall jj :: 0 <= jj < j ==> bodies[jj] == LaneBody(p.partitions[i][jj], packSize, k)
  {
    seq(j, jj requires 0 <= jj < j => LaneBody(p.partitions[i][jj], packSize, k))
  }

  /** Every lane after the first `j` column partitions of row partition `i`. */
  function ExpectedLanes(p: PartitionedCsr, packSize: nat, i: nat, j: nat): (lanes: seq<seq<NonZero>>)
    requires GridValid(p) && packSize > 0 && i < p.numRowPartitions && j <= p.numColPartitions
    ensures |lanes| == packSize
    ensures forall k :: 0 <= k < packSize ==> lanes[k] == ExpectedColumns(p, packSize, i, j, k)
  {
    seq(packSize, k requires 0 <= k < packSize => ExpectedColumns(p, packSize, i, j, k))
  }

  /** The host's buffer holds words of the kernel's width. */
  lemma HostWordsWide(p: PartitionedCsr, packSize: nat)
    requires HostEncodable(p, packSize)
    ensures WordsWide(FormattedMatrix(Build(p, 1, packSize).value), packSize)
  {
    var c := Build(p, 1, packSize).value;
    var words := c.partitionTables[0] + c.channelData[0];
    assert forall x :: 0 <= x < |words| ==> |words[x]| == packSize;
  }

  /** Tile `(i, j)` is entry `i * numColPartitions + j` of the row-major order. */
  lemma TileIndex(p: PartitionedCsr, i: nat, j: nat)
    requires GridValid(p) && i < p.numRowPartitions && j < p.numColPartitions
    ensures PartitionId(i, p.numColPartitions, j) < p.numRowPartitions * p.numColPartitions
    ensures PartitionId(i, p.numColPartitions, j) < |RowMajor(p.partitions)|
    ensures RowMajor(p.partitions)[PartitionId(i, p.numColPartitions, j)] == p.partitions[i][j]
  {
    var grid := p.partitions;
    var w := p.numColPartitions;
    RowMajorIndex(grid, w, i, j);
    assert |grid| * w == p.numRowPartitions * w;
  }

  /** A tile encoded at entry `t` of a laid-out table reads cleanly as its frames. */
  lemma EntryReads(m: seq<Bits>, table: seq<Word>, data: seq<Word>, t: nat, tile: CsrMatrix, packSize: nat)
    requires Valid(tile) && packSize > 0 && IndicesBelow(tile, NextRowMarker)
    requires Encodes(table, data, t, TileLanes(tile, packSize), packSize) && Laid(m, table, data)
    ensures WordsWide(m, packSize)
    ensures PartitionReads(m, t, |table|, packSize, TileFrameLanes(tile, packSize))
  {
    TableRead(m, table, data, t, TileLanes(tile, packSize), packSize);
    TileFrames(m, table, data, t, tile, packSize);
  }

  /** Tile `(i, j)` sits at entry `i * numColPartitions + j` of channel 0's table, within 32-bit addresses. */
  lemma ColumnEncoded(p: PartitionedCsr, packSize: nat, i: nat, j: nat)
    requires HostEncodable(p, packSize) && i < p.numRowPartitions && j < p.numColPartitions
    ensures var c := Build(p, 1, packSize).value;
            var t := PartitionId(i, p.numColPartitions, j);
            && Laid(FormattedMatrix(c), c.partitionTables[0], c.channelData[0])
            && |c.partitionTables[0]| == 2 * (p.numRowPartitions * p.numColPartitions) < Word32
            && t < Word32
            && Encodes(c.partitionTables[0], c.channelData[0], t, TileLanes(p.partitions[i][j], packSize), packSize)
  {
    var t := PartitionId(i, p.numColPartitions, j);
    TileIndex(p, i, j);
    TileEncoded(p, packSize, t);
  }

  /** Tile `(i, j)` read back from the host's buffer: its table entry, then every lane's frame. */
  lemma ColumnRead(p: PartitionedCsr, packSize: nat, m: seq<Bits>, total: nat, i: nat, j: nat)
    requires HostEncodable(p, packSize) && m == FormattedMatrix(Build(p, 1, packSize).value)
    requires total == TotalPartitions(p)
    requires i < p.numRowPartitions && j < p.numColPartitions
    ensures WordsWide(m, packSize)
    ensures PartitionReads(m, PartitionId(i, p.numColPartitions, j) % Word32, (2 * total) % Word32, packSize,
                           TileFrameLanes(p.partitions[i][j], packSize))
  {
    var c := Build(p, 1, packSize).value;
    var t := PartitionId(i, p.numColPartitions, j);
    ColumnEncoded(p, packSize, i, j);
    SmallMod(t, Word32);
    SmallMod(2 * total, Word32);
    EntryReads(m, c.partitionTables[0], c.channelData[0], t, p.partitions[i][j], packSize);
  }

  /** The number of tiles, `total_num_partitions`. */
  function TotalPartitions(p: PartitionedCsr): nat {
    p.numRowPartitions * p.numColPartitions
  }

  /** Every tile's frames, in column order, for row partition `i`. */
  function RowFrames(p: PartitionedCsr, packSize: nat, i: nat): (cols: seq<seq<seq<NonZero>>>)
    requires GridValid(p) && packSize > 0 && i < p.numRowPartitions
    ensures |cols| == p.numColPartitions
    ensures forall jj :: 0 <= jj < |cols| ==> cols[jj] == TileFrameLanes(p.partitions[i][jj], packSize)
  {
    seq(p.numColPartitions, jj requires 0 <= jj < p.numColPartitions => TileFrameLanes(p.partitions[i][jj], packSize))
  }

  /** Stacking a lane's tile frames is framing its tile bodies. */
  lemma {:induction false} StackedFrames(p: PartitionedCsr, packSize: nat, i: nat, k: nat, j: nat)
    requires GridValid(p) && packSize > 0 && i < p.numRowPartitions && k < packSize && j <= p.numColPartitions
    ensures LaneStack(RowFrames(p, packSize, i), k, j) == ExpectedColumns(p, packSize, i, j, k)
    decreases j
  {
    if j > 0 {
      StackedFrames(p, packSize, i, k, j - 1);
      var bodies := ColumnBodies(p, packSize, i, j, k);
      assert bodies[..j - 1] == ColumnBodies(p, packSize, i, j - 1, k);
    }
  }

  /** Every tile of row partition `i` reads cleanly from the host's buffer as its frames. */
  lemma RowReads(p: PartitionedCsr, packSize: nat, i: nat)
    requires HostEncodable(p, packSize) && i < p.numRowPartitions
    ensures WordsWide(FormattedMatrix(Build(p, 1, packSize).value), packSize)
    ensures forall jj :: 0 <= jj < p.numColPartitions ==>
              PartitionReads(FormattedMatrix(Build(p, 1, packSize).value), PartitionId(i, p.numColPartitions, jj) % Word32,
                             (2 * TotalPartitions(p)) % Word32, packSize,
                             RowFrames(p, packSize, i)[jj])
  {
    var m := FormattedMatrix(Build(p, 1, packSize).value);
    var total := TotalPartitions(p);
    HostWordsWide(p, packSize);
    forall jj | 0 <= jj < p.numColPartitions
      ensures PartitionReads(m, PartitionId(i, p.numColPartitions, jj) % Word32, (2 * total) % Word32, packSize,
                             RowFrames(p, packSize, i)[jj])
    {
      ColumnRead(p, packSize, m, total, i, jj);
    }
  }

  /** Every lane's stacked tile frames are its expected lane. */
  lemma RowStacked(p: PartitionedCsr, packSize: nat, i: nat)
    requires GridValid(p) && packSize > 0 && i < p.numRowPartitions
    ensures forall k :: 0 <= k < packSize ==>
              LaneStack(RowFrames(p, packSize, i), k, p.numColPartitions)
              == ExpectedLanes(p, packSize, i, p.numColPartitions)[k]
  {
    forall k | 0 <= k < packSize
      ensures LaneStack(RowFrames(p, packSize, i), k, p.numColPartitions)
              == ExpectedLanes(p, packSize, i, p.numColPartitions)[k]
    {
      StackedFrames(p, packSize, i, k, p.numColPartitions);
    }
  }

  /**
   * The loader over the host's buffer: after all column partitions of row
   * partition `i`, lane `k` holds one frame per tile, each framing exactly
   * the nonzeros of the tile's rows `k, k + packSize, ...` in order.
   */
  lemma LoadColumnsReadsTiles(p: PartitionedCsr, packSize: nat, i: nat)
    requires HostEncodable(p, packSize) && i < p.numRowPartitions
    ensures WordsWide(FormattedMatrix(Build(p, 1, packSize).value), packSize)
    ensures LoadColumns(FormattedMatrix(Build(p, 1, packSize).value), i, p.numColPartitions,
                        TotalPartitions(p), packSize, p.numColPartitions)
            == Ok(ExpectedLanes(p, packSize, i, p.numColPartitions))
  {
    var m := FormattedMatrix(Build(p, 1, packSize).value);
    var total := TotalPartitions(p);
    var ncp := p.numColPartitions;
    RowReads(p, packSize, i);
    var cols := RowFrames(p, packSize, i);
    LoadColumnsStacks(m, i, ncp, total, packSize, cols, ncp);
    RowStacked(p, packSize, i);
    assert LoadColumns(m, i, ncp, total, packSize, ncp).value == ExpectedLanes(p, packSize, i, ncp);
  }

  /** Lane `k`'s bodies for row partition `i`: tile `j`'s nonzeros of rows `k, k + packSize, ...`. */
  function TileBodies(p: PartitionedCsr, packSize: nat, i: nat): (bodies: seq<seq<seq<NonZero>>>)
    requires GridValid(p) && packSize > 0 && i < p.numRowPartitions
    ensures |bodies| == packSize
    ensures forall k :: 0 <= k < packSize ==>
              && |bodies[k]| == p.numColPartitions
              && (forall j :: 0 <= j < p.numColPartitions ==> bodies[k][j] == LaneBody(p.partitions[i][j], packSize, k))
              && Frames(bodies[k]) == ExpectedColumns(p, packSize, i, p.numColPartitions, k)
  {
    seq(packSize, k requires 0 <= k < packSize => ColumnBodies(p, packSize, i, p.numColPartitions, k))
  }

  /**
   * `matrix_loader` over the host's buffer streams, into lane `k`, one frame
   * per column partition of row partition `i` holding exactly the nonzeros
   * of that tile's rows `k, k + packSize, ...` tagged with their rows, and
   * then the exit token.
   */
  lemma MatrixLoaderReadsTiles(p: PartitionedCsr, packSize: nat, i: nat)
    requires HostEncodable(p, packSize) && i < p.numRowPartitions
    ensures WordsWide(FormattedMatrix(Build(p, 1, packSize).value), packSize)
    ensures MatrixLoader(FormattedMatrix(Build(p, 1, packSize).value), i, p.numColPartitions,
                         TotalPartitions(p), packSize)
            == Ok(LoadedLanes(TileBodies(p, packSize, i)))
  {
    var m := FormattedMatrix(Build(p, 1, packSize).value);
    LoadColumnsReadsTiles(p, packSize, i);
    assert MatrixLoader(m, i, p.numColPartitions, TotalPartitions(p), packSize).value
           == LoadedLanes(TileBodies(p, packSize, i));
  }

  /**
   * With the host's own arguments (row partition 0 and the encoded
   * matrix's partition counts) the kernel's loader reads the first row
   * partition's tiles.
   */
  lemma HostLoaderInput(p: PartitionedCsr, numRows: nat)
    requires HostEncodable(p, HostPackSize) && p.numRowPartitions > 0
    ensures var c := Build(p, 1, HostPackSize).value;
            var a := HostArgs(c, numRows);
            && WordsWide(FormattedMatrix(c), HostPackSize)
            && MatrixLoader(FormattedMatrix(c), a.rowPartitionId, a.numColPartitions, a.totalNumPartitions, HostPackSize)
               == Ok(LoadedLanes(TileBodies(p, HostPackSize, 0)))
  {
    var c := Build(p, 1, HostPackSize).value;
    var a := HostArgs(c, numRows);
    assert a.totalNumPartitions == TotalPartitions(p);
    MatrixLoaderReadsTiles(p, HostPackSize, 0);
  }
}
