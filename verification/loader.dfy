/**
 * The SpMV kernel's matrix loader (`matrix_loader`): for one row partition it
 * walks the column partitions, reads each partition's two table words, then
 * streams the partition's data words; lane `k` decodes slot `k` of every
 * word into nonzeros, keeping a row counter that each marker advances by
 * `pack_size` rows. Each partition's nonzeros are framed by a start and a
 * next token, and an exit token closes each lane.
 */
module Loader {
  import opened Errors
  import opened Streams
  import opened Hbm

  /** `token_t`: none (0), start (1), next (2), exit (3). */
  datatype Token = NoToken | StartToken | NextToken | ExitToken

  /** What a lane carries to its vector buffer access unit; a token carries zeros. */
  datatype NonZero = NonZero(data: int, rowIndex: nat, colIndex: nat, token: Token)

  const StartNz: NonZero := NonZero(0, 0, 0, StartToken)
  const NextNz: NonZero := NonZero(0, 0, 0, NextToken)
  const ExitNz: NonZero := NonZero(0, 0, 0, ExitToken)

  /** `PartitionInfo`: where a partition's data starts, each lane's length, the longest. */
  datatype PartitionInfo = PartitionInfo(start: nat, length: seq<nat>, maxLength: nat)

  /** Every word is `64 * packSize` bits wide. */
  predicate WordsWide(matrix: seq<Bits>, packSize: nat) {
    forall i :: 0 <= i < |matrix| ==> |matrix[i]| == 64 * packSize
  }

  /** The largest element, 0 for none. */
  function Max(s: seq<nat>): (m: nat)
    ensures forall k :: 0 <= k < |s| ==> s[k] <= m
    ensures m == 0 || exists k :: 0 <= k < |s| && s[k] == m
    decreases |s|
  {
    if |s| == 0 then 0
    else
      var rest := Max(s[..|s| - 1]);
      if s[|s| - 1] > rest then s[|s| - 1] else rest
  }

  /** A partition's lengths cover every lane and the maximum bounds them all. */
  predicate InfoShaped(info: PartitionInfo, packSize: nat) {
    && |info.length| == packSize
    && (forall k :: 0 <= k < packSize ==> info.length[k] <= info.maxLength)
    && (info.maxLength == 0 || exists k :: 0 <= k < packSize && info.length[k] == info.maxLength)
  }

  /**
   * `read_partition_table`: words `2 * pid` and `2 * pid + 1`. The start is
   * the first word's low field, lane `k`'s length the second word's slot `k`,
   * and the maximum is the largest length. A table entry past the end of
   * memory is an out-of-bounds read.
   */
  function ReadPartitionTable(matrix: seq<Bits>, pid: nat, packSize: nat): (r: Result<PartitionInfo>)
    requires WordsWide(matrix, packSize) && packSize > 0
    ensures r.Err? <==> |matrix| <= 2 * pid + 1
    ensures r.Err? ==> r.error == OutOfBounds
    ensures r.Ok? ==> InfoShaped(r.value, packSize)
    ensures r.Ok? ==> r.value.start == AsMetadataStart(matrix[2 * pid])
    ensures r.Ok? ==> forall k :: 0 <= k < packSize ==>
              r.value.length[k] == AsMetadataLength(matrix[2 * pid + 1], k)
  {
    if |matrix| <= 2 * pid + 1 then Err(OutOfBounds)
    else
      var lengths := seq(packSize, k requires 0 <= k < packSize => AsMetadataLength(matrix[2 * pid + 1], k));
      Ok(PartitionInfo(AsMetadataStart(matrix[2 * pid]), lengths, Max(lengths)))
  }

  // ---------------------------------------------------------------------------
  // One lane
  // ---------------------------------------------------------------------------

  /** A lane's row counter and what it has written so far. */
  datatype LaneState = LaneState(counter: nat, out: seq<NonZero>)

  /**
   * One packet in lane logic: a marker advances the counter by `packSize`
   * times its value, modulo `2^32`; anything else is a nonzero of the
   * current row.
   */
  function Step(st: LaneState, p: Packet, packSize: nat): LaneState {
    if p.index == NextRowMarker then LaneState((st.counter + packSize * p.value) % Word32, st.out)
    else LaneState(st.counter, st.out + [NonZero(p.value, st.counter, p.index, NoToken)])
  }

  /** A lane consuming packets in order. */
  function Run(packets: seq<Packet>, st: LaneState, packSize: nat): LaneState
    decreases |packets|
  {
    if |packets| == 0 then st
    else Step(Run(packets[..|packets| - 1], st, packSize), packets[|packets| - 1], packSize)
  }

  /**
   * Every packet but a marker yields one nonzero, appended after what the
   * lane held, and none of them carries a token.
   */
  lemma {:induction false} RunEmits(packets: seq<Packet>, st: LaneState, packSize: nat)
    ensures |st.out| <= |Run(packets, st, packSize).out|
    ensures |Run(packets, st, packSize).out| + CountMarkers(packets) == |st.out| + |packets|
    ensures Run(packets, st, packSize).out[..|st.out|] == st.out
    ensures forall x :: |st.out| <= x < |Run(packets, st, packSize).out| ==>
              Run(packets, st, packSize).out[x].token == NoToken
    decreases |packets|
  {
    if |packets| > 0 {
      RunEmits(packets[..|packets| - 1], st, packSize);
      var prev := Run(packets[..|packets| - 1], st, packSize);
      assert prev.out[..|st.out|] == st.out;
    }
  }

  /** Running a concatenation is running its halves one after the other. */
  lemma {:induction false} RunAppend(a: seq<Packet>, b: seq<Packet>, st: LaneState, packSize: nat)
    ensures Run(a + b, st, packSize) == Run(b, Run(a, st, packSize), packSize)
    decreases |b|
  {
    if |b| == 0 {
      assert a + b == a;
    } else {
      var n := |b|;
      assert (a + b)[..|a + b| - 1] == a + b[..n - 1];
      RunAppend(a, b[..n - 1], st, packSize);
    }
  }

  // ---------------------------------------------------------------------------
  // One partition
  // ---------------------------------------------------------------------------

  /** Every data word the partition's longest lane reads lies in memory. */
  predicate DataInRange(matrix: seq<Bits>, offset: nat, info: PartitionInfo) {
    info.maxLength == 0 || offset + info.start + info.maxLength <= |matrix|
  }

  /** Slot `k` of the first `n` data words of a partition, as the kernel parses them. */
  function Fetched(matrix: seq<Bits>, offset: nat, info: PartitionInfo, k: nat, packSize: nat, n: nat): (ps: seq<Packet>)
    requires WordsWide(matrix, packSize) && k < packSize
    requires n == 0 || offset + info.start + n <= |matrix|
    ensures |ps| == n
    ensures forall i :: 0 <= i < n ==> ps[i] == ParsePacket(matrix[offset + info.start + i], k)
  {
    seq(n, i requires 0 <= i < n => ParsePacket(matrix[offset + info.start + i], k))
  }

  /** The lane's output for one partition: start, its nonzeros, next. */
  function PartitionLane(matrix: seq<Bits>, offset: nat, info: PartitionInfo, k: nat, packSize: nat): (lane: seq<NonZero>)
    requires WordsWide(matrix, packSize) && InfoShaped(info, packSize) && k < packSize
    requires DataInRange(matrix, offset, info)
    ensures |lane| >= 2 && lane[0] == StartNz && lane[|lane| - 1] == NextNz
    ensures forall x :: 0 < x < |lane| - 1 ==> lane[x].token == NoToken
  {
    var packets := Fetched(matrix, offset, info, k, packSize, info.length[k]);
    RunEmits(packets, LaneState(k % Word32, []), packSize);
    [StartNz] + Run(packets, LaneState(k % Word32, []), packSize).out + [NextNz]
  }

  /**
   * `stream_read_pipeline` for one partition: every lane gets its frame; a
   * data word past the end of memory is an out-of-bounds read.
   */
  function LoadPartition(matrix: seq<Bits>, offset: nat, info: PartitionInfo, packSize: nat): (r: Result<seq<seq<NonZero>>>)
    requires WordsWide(matrix, packSize) && InfoShaped(info, packSize)
    ensures r.Err? <==> !DataInRange(matrix, offset, info)
    ensures r.Err? ==> r.error == OutOfBounds
    ensures r.Ok? ==> |r.value| == packSize
  {
    if !DataInRange(matrix, offset, info) then Err(OutOfBounds)
    else Ok(seq(packSize, k requires 0 <= k < packSize => PartitionLane(matrix, offset, info, k, packSize)))
  }

  /** The lanes' row counters start at their own index. */
  function InitialCounters(packSize: nat): (cs: seq<nat>)
    ensures |cs| == packSize
  {
    seq(packSize, k requires 0 <= k < packSize => k % Word32)
  }

  /** The packets lane `k` has consumed after `i` words: the first `min(i, length)`. */
  function Consumed(info: PartitionInfo, k: nat, i: nat): nat
    requires k < |info.length|
  {
    if i < info.length[k] then i else info.length[k]
  }

  /**
   * The loader's word loop for one partition, lanes side by side as the
   * hardware runs them: word `i` is read once and each lane with `i` below
   * its length consumes slot `i`. It produces exactly the frames of
   * `LoadPartition`, and fails exactly when a word it must read is missing.
   */
  method StreamPartition(matrix: seq<Bits>, offset: nat, info: PartitionInfo, packSize: nat)
    returns (r: Result<seq<seq<NonZero>>>)
    requires WordsWide(matrix, packSize) && InfoShaped(info, packSize)
    ensures r == LoadPartition(matrix, offset, info, packSize)
  {
    var counters: seq<nat> := InitialCounters(packSize);
    var outs: seq<seq<NonZero>> := seq(packSize, k requires 0 <= k < packSize => [StartNz]);
    var i := 0;
    while i < info.maxLength
      invariant i <= info.maxLength
      invariant i == 0 || offset + info.start + i <= |matrix|
      invariant |counters| == packSize && |outs| == packSize
      invariant forall k :: 0 <= k < packSize ==>
                  LaneAfter(matrix, offset, info, packSize, counters[k], outs[k], k, Consumed(info, k, i))
    {
      if |matrix| <= offset + info.start + i {
        assert !DataInRange(matrix, offset, info);
        return Err(OutOfBounds);
      }
      counters, outs := ConsumeWord(matrix, offset, info, packSize, counters, outs, i);
      i := i + 1;
    }
    assert DataInRange(matrix, offset, info);
    var lanes := seq(packSize, k requires 0 <= k < packSize => outs[k] + [NextNz]);
    forall k | 0 <= k < packSize
      ensures lanes[k] == PartitionLane(matrix, offset, info, k, packSize)
    {
      LaneDone(matrix, offset, info, packSize, counters[k], outs[k], k);
    }
    assert lanes == LoadPartition(matrix, offset, info, packSize).value;
    r := Ok(lanes);
  }

  /** Word `i` in every lane: each lane with `i` below its length consumes its slot. */
  method ConsumeWord(matrix: seq<Bits>, offset: nat, info: PartitionInfo, packSize: nat,
                     counters: seq<nat>, outs: seq<seq<NonZero>>, i: nat)
    returns (counters': seq<nat>, outs': seq<seq<NonZero>>)
    requires WordsWide(matrix, packSize) && InfoShaped(info, packSize)
    requires offset + info.start + i < |matrix|
    requires |counters| == packSize && |outs| == packSize
    requires forall k :: 0 <= k < packSize ==>
               LaneAfter(matrix, offset, info, packSize, counters[k], outs[k], k, Consumed(info, k, i))
    ensures |counters'| == packSize && |outs'| == packSize
    ensures forall k :: 0 <= k < packSize ==>
              LaneAfter(matrix, offset, info, packSize, counters'[k], outs'[k], k, Consumed(info, k, i + 1))
  {
    var word := matrix[offset + info.start + i];
    counters', outs' := counters, outs;
    var k := 0;
    while k < packSize
      invariant k <= packSize
      invariant |counters'| == packSize && |outs'| == packSize
      invariant forall j :: 0 <= j < packSize ==>
                  LaneAfter(matrix, offset, info, packSize, counters'[j], outs'[j], j,
                            Consumed(info, j, if j < k then i + 1 else i))
    {
      if i < info.length[k] {
        var st := Step(LaneState(counters'[k], outs'[k]), ParsePacket(word, k), packSize);
        LaneAdvance(matrix, offset, info, packSize, counters'[k], outs'[k], k, i);
        counters' := counters'[k := st.counter];
        outs' := outs'[k := st.out];
      }
      k := k + 1;
    }
  }

  /** Lane `k` holds, after a start token, what it makes of the first `n` packets of its slot. */
  predicate LaneAfter(matrix: seq<Bits>, offset: nat, info: PartitionInfo, packSize: nat,
                      counter: nat, out: seq<NonZero>, k: nat, n: nat)
    requires WordsWide(matrix, packSize) && k < packSize
  {
    && (n == 0 || offset + info.start + n <= |matrix|)
    && LaneState(counter, out)
       == Run(Fetched(matrix, offset, info, k, packSize, n), LaneState(k % Word32, [StartNz]), packSize)
  }

  /** A lane below its length consumes the word's slot. */
  lemma LaneAdvance(matrix: seq<Bits>, offset: nat, info: PartitionInfo, packSize: nat,
                    counter: nat, out: seq<NonZero>, k: nat, i: nat)
    requires WordsWide(matrix, packSize) && InfoShaped(info, packSize) && k < packSize
    requires i < info.length[k] && offset + info.start + i < |matrix|
    requires LaneAfter(matrix, offset, info, packSize, counter, out, k, i)
    ensures var st := Step(LaneState(counter, out), ParsePacket(matrix[offset + info.start + i], k), packSize);
            LaneAfter(matrix, offset, info, packSize, st.counter, st.out, k, i + 1)
  {
    FetchedSnoc(matrix, offset, info, k, packSize, i);
  }

  /** After the last word every lane has consumed its whole length. */
  lemma LaneDone(matrix: seq<Bits>, offset: nat, info: PartitionInfo, packSize: nat,
                 counter: nat, out: seq<NonZero>, k: nat)
    requires WordsWide(matrix, packSize) && InfoShaped(info, packSize) && k < packSize
    requires DataInRange(matrix, offset, info)
    requires LaneAfter(matrix, offset, info, packSize, counter, out, k, Consumed(info, k, info.maxLength))
    ensures out + [NextNz] == PartitionLane(matrix, offset, info, k, packSize)
  {
    RunFromStart(Fetched(matrix, offset, info, k, packSize, info.length[k]), k % Word32, packSize);
  }

  /** Fetching one more word extends a lane's packets by that word's slot. */
  lemma FetchedSnoc(matrix: seq<Bits>, offset: nat, info: PartitionInfo, k: nat, packSize: nat, n: nat)
    requires WordsWide(matrix, packSize) && k < packSize
    requires offset + info.start + n + 1 <= |matrix|
    ensures Fetched(matrix, offset, info, k, packSize, n + 1)[..n] == Fetched(matrix, offset, info, k, packSize, n)
    ensures Fetched(matrix, offset, info, k, packSize, n + 1)[n] == ParsePacket(matrix[offset + info.start + n], k)
  {
  }

  /** Starting from a start token only prefixes it to the lane's nonzeros. */
  lemma {:induction false} RunFromStart(packets: seq<Packet>, counter: nat, packSize: nat)
    ensures Run(packets, LaneState(counter, [StartNz]), packSize).out
            == [StartNz] + Run(packets, LaneState(counter, []), packSize).out
    ensures Run(packets, LaneState(counter, [StartNz]), packSize).counter
            == Run(packets, LaneState(counter, []), packSize).counter
    decreases |packets|
  {
    if |packets| > 0 {
      RunFromStart(packets[..|packets| - 1], counter, packSize);
    }
  }

  // ---------------------------------------------------------------------------
  // A row partition
  // ---------------------------------------------------------------------------

  /** Partition bodies each framed by a start and a next token, one after the other. */
  function Frames(bodies: seq<seq<NonZero>>): seq<NonZero>
    decreases |bodies|
  {
    if |bodies| == 0 then []
    else Frames(bodies[..|bodies| - 1]) + [StartNz] + bodies[|bodies| - 1] + [NextNz]
  }

  /** Lanes as the loader writes them: lane `k` holds one frame per body of `bodies[k]`, then the exit token. */
  function LoadedLanes(bodies: seq<seq<seq<NonZero>>>): (lanes: seq<seq<NonZero>>)
    ensures |lanes| == |bodies| && forall k :: 0 <= k < |bodies| ==> lanes[k] == Frames(bodies[k]) + [ExitNz]
  {
    seq(|bodies|, k requires 0 <= k < |bodies| => Frames(bodies[k]) + [ExitNz])
  }

  /** How often `t` occurs as a token in a lane. */
  function TokenCount(lane: seq<NonZero>, t: Token): nat
    decreases |lane|
  {
    if |lane| == 0 then 0
    else TokenCount(lane[..|lane| - 1], t) + (if lane[|lane| - 1].token == t then 1 else 0)
  }

  lemma {:induction false} TokenCountAppend(a: seq<NonZero>, b: seq<NonZero>, t: Token)
    ensures TokenCount(a + b, t) == TokenCount(a, t) + TokenCount(b, t)
    decreases |b|
  {
    if |b| == 0 {
      assert a + b == a;
    } else {
      assert (a + b)[..|a + b| - 1] == a + b[..|b| - 1];
      TokenCountAppend(a, b[..|b| - 1], t);
    }
  }

  /** A partition frame holds one start and one next token and never an exit. */
  lemma FrameTokens(matrix: seq<Bits>, offset: nat, info: PartitionInfo, k: nat, packSize: nat)
    requires WordsWide(matrix, packSize) && InfoShaped(info, packSize) && k < packSize
    requires DataInRange(matrix, offset, info)
    ensures TokenCount(PartitionLane(matrix, offset, info, k, packSize), StartToken) == 1
    ensures TokenCount(PartitionLane(matrix, offset, info, k, packSize), NextToken) == 1
    ensures TokenCount(PartitionLane(matrix, offset, info, k, packSize), ExitToken) == 0
  {
    var lane := PartitionLane(matrix, offset, info, k, packSize);
    var body := lane[1..|lane| - 1];
    assert lane == [StartNz] + body + [NextNz];
    PlainTokens(body);
    TokenCountAppend([StartNz] + body, [NextNz], StartToken);
    TokenCountAppend([StartNz], body, StartToken);
    TokenCountAppend([StartNz] + body, [NextNz], NextToken);
    TokenCountAppend([StartNz], body, NextToken);
    TokenCountAppend([StartNz] + body, [NextNz], ExitToken);
    TokenCountAppend([StartNz], body, ExitToken);
  }

  /** A lane segment with no tokens counts none of them. */
  lemma {:induction false} PlainTokens(body: seq<NonZero>)
    requires forall x :: 0 <= x < |body| ==> body[x].token == NoToken
    ensures TokenCount(body, StartToken) == 0
    ensures TokenCount(body, NextToken) == 0
    ensures TokenCount(body, ExitToken) == 0
    decreases |body|
  {
    if |body| > 0 {
      PlainTokens(body[..|body| - 1]);
    }
  }

  /** The id of partition `(rowPid, colPid)` in the row-major partition table, before its `index_t` truncation. */
  function PartitionId(rowPid: nat, numColParts: nat, colPid: nat): nat {
    rowPid * numColParts + colPid
  }

  /**
   * Each lane after the first `j` column partitions of row partition
   * `rowPid`: partition `rowPid * numColParts + j` (an `index_t`, so modulo
   * `2^32`), data after the `2 * totalParts` table words (modulo `2^32`).
   */
  function LoadColumns(matrix: seq<Bits>, rowPid: nat, numColParts: nat, totalParts: nat, packSize: nat, j: nat)
    : (r: Result<seq<seq<NonZero>>>)
    requires WordsWide(matrix, packSize) && packSize > 0
    ensures r.Err? ==> r.error == OutOfBounds
    ensures r.Ok? ==> |r.value| == packSize
    decreases j
  {
    if j == 0 then Ok(seq(packSize, k requires 0 <= k < packSize => []))
    else
      match LoadColumns(matrix, rowPid, numColParts, totalParts, packSize, j - 1)
      case Err(e) => Err(e)
      case Ok(prev) =>
        match ReadPartitionTable(matrix, PartitionId(rowPid, numColParts, j - 1) % Word32, packSize)
        case Err(e) => Err(e)
        case Ok(info) =>
          match LoadPartition(matrix, (2 * totalParts) % Word32, info, packSize)
          case Err(e) => Err(e)
          case Ok(frames) => Ok(seq(packSize, k requires 0 <= k < packSize => prev[k] + frames[k]))
  }

  /** Partition `pid` reads cleanly from the table and its data, every lane's frame as `frames`. */
  predicate PartitionReads(matrix: seq<Bits>, pid: nat, offset: nat, packSize: nat, frames: seq<seq<NonZero>>)
    requires WordsWide(matrix, packSize) && packSize > 0
  {
    var info := ReadPartitionTable(matrix, pid, packSize);
    && info.Ok?
    && LoadPartition(matrix, offset, info.value, packSize) == Ok(frames)
  }

  /** Lane `k`'s frames from the first `j` column partitions, in order. */
  function LaneStack(cols: seq<seq<seq<NonZero>>>, k: nat, j: nat): seq<NonZero>
    requires j <= |cols| && forall jj :: 0 <= jj < |cols| ==> k < |cols[jj]|
    decreases j
  {
    if j == 0 then [] else LaneStack(cols, k, j - 1) + cols[j - 1][k]
  }

  /**
   * When every column partition `jj` of row partition `rowPid` reads cleanly
   * as `cols[jj]`, the loader's lanes after `j` of them are those frames
   * stacked in column order.
   */
  lemma {:induction false} LoadColumnsStacks(matrix: seq<Bits>, rowPid: nat, numColParts: nat, totalParts: nat,
                                             packSize: nat, cols: seq<seq<seq<NonZero>>>, j: nat)
    requires WordsWide(matrix, packSize) && packSize > 0 && j <= |cols|
    requires forall jj :: 0 <= jj < |cols| ==> |cols[jj]| == packSize
    requires forall jj :: 0 <= jj < |cols| ==>
               PartitionReads(matrix, PartitionId(rowPid, numColParts, jj) % Word32, (2 * totalParts) % Word32, packSize, cols[jj])
    ensures var r := LoadColumns(matrix, rowPid, numColParts, totalParts, packSize, j);
            && r.Ok? && |r.value| == packSize
            && forall k :: 0 <= k < packSize ==> r.value[k] == LaneStack(cols, k, j)
    decreases j
  {
    if j > 0 {
      LoadColumnsStacks(matrix, rowPid, numColParts, totalParts, packSize, cols, j - 1);
      assert PartitionReads(matrix, PartitionId(rowPid, numColParts, j - 1) % Word32, (2 * totalParts) % Word32,
                            packSize, cols[j - 1]);
    }
  }

  /** After `j` column partitions lane `k` holds `j` start and `j` next tokens and no exit. */
  lemma {:induction false} ColumnTokens(matrix: seq<Bits>, rowPid: nat, numColParts: nat, totalParts: nat,
                                        packSize: nat, j: nat, k: nat)
    requires WordsWide(matrix, packSize) && k < packSize
    requires LoadColumns(matrix, rowPid, numColParts, totalParts, packSize, j).Ok?
    ensures var lane := LoadColumns(matrix, rowPid, numColParts, totalParts, packSize, j).value[k];
            && TokenCount(lane, StartToken) == j
            && TokenCount(lane, NextToken) == j
            && TokenCount(lane, ExitToken) == 0
    decreases j
  {
    if j > 0 {
      ColumnTokens(matrix, rowPid, numColParts, totalParts, packSize, j - 1, k);
      var prev := LoadColumns(matrix, rowPid, numColParts, totalParts, packSize, j - 1).value;
      var info := ReadPartitionTable(matrix, PartitionId(rowPid, numColParts, j - 1) % Word32, packSize).value;
      var offset := (2 * totalParts) % Word32;
      var frames := LoadPartition(matrix, offset, info, packSize).value;
      FrameTokens(matrix, offset, info, k, packSize);
      TokenCountAppend(prev[k], frames[k], StartToken);
      TokenCountAppend(prev[k], frames[k], NextToken);
      TokenCountAppend(prev[k], frames[k], ExitToken);
    }
  }

  /**
   * `matrix_loader` for row partition `rowPid`: every column partition in
   * turn, then an exit token on every lane. Each lane ends in its only exit
   * token, after one start and one next token per column partition.
   */
  function MatrixLoader(matrix: seq<Bits>, rowPid: nat, numColParts: nat, totalParts: nat, packSize: nat)
    : (r: Result<seq<seq<NonZero>>>)
    requires WordsWide(matrix, packSize) && packSize > 0
    ensures r.Err? ==> r.error == OutOfBounds
    ensures r.Ok? ==> |r.value| == packSize
    ensures r.Ok? ==> forall k :: 0 <= k < packSize ==>
              && |r.value[k]| > 0 && r.value[k][|r.value[k]| - 1] == ExitNz
              && TokenCount(r.value[k], StartToken) == numColParts
              && TokenCount(r.value[k], NextToken) == numColParts
              && TokenCount(r.value[k], ExitToken) == 1
  {
    match LoadColumns(matrix, rowPid, numColParts, totalParts, packSize, numColParts)
    case Err(e) => Err(e)
    case Ok(lanes) =>
      var r := seq(packSize, k requires 0 <= k < packSize => lanes[k] + [ExitNz]);
      assert forall k :: 0 <= k < packSize ==>
          && TokenCount(r[k], StartToken) == numColParts
          && TokenCount(r[k], NextToken) == numColParts
          && TokenCount(r[k], ExitToken) == 1 by {
        forall k | 0 <= k < packSize
          ensures && TokenCount(r[k], StartToken) == numColParts
                  && TokenCount(r[k], NextToken) == numColParts
                  && TokenCount(r[k], ExitToken) == 1
        {
          ColumnTokens(matrix, rowPid, numColParts, totalParts, packSize, numColParts, k);
          TokenCountAppend(lanes[k], [ExitNz], StartToken);
          TokenCountAppend(lanes[k], [ExitNz], NextToken);
          TokenCountAppend(lanes[k], [ExitNz], ExitToken);
        }
      }
      Ok(r)
  }
}
