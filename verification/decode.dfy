/**
 * What one loader lane makes of a stream the host wrote: every nonzero of
 * the stream's rows, in order, tagged with its own row of the tile. The
 * kernel sees each packet through 32-bit fields, and the row counter is an
 * `index_t`, so values and rows arrive modulo `2^32`.
 */
module LaneDecode {
  import opened Csr
  import opened Streams
  import opened Hbm
  import opened Loader

  /** A packet as the kernel reads it back from memory: both fields modulo `2^32`. */
  function Wrap(p: Packet): (q: Packet)
    ensures q.index < Word32 && 0 <= q.value < Word32
  {
    Packet(p.index % Word32, p.value % Word32)
  }

  function WrapAll(ps: seq<Packet>): (qs: seq<Packet>)
    ensures |qs| == |ps| && forall i :: 0 <= i < |ps| ==> qs[i] == Wrap(ps[i])
  {
    seq(|ps|, i requires 0 <= i < |ps| => Wrap(ps[i]))
  }

  lemma WrapAllAppend(a: seq<Packet>, b: seq<Packet>)
    ensures WrapAll(a + b) == WrapAll(a) + WrapAll(b)
  {
  }

  /** The nonzeros of row `r`, each tagged with row index `row`. */
  function RowNonZeros(m: CsrMatrix, r: nat, row: nat): (nzs: seq<NonZero>)
    requires Valid(m) && r < m.numRows
    ensures |nzs| == |RowEntries(m, r)|
  {
    var es := RowEntries(m, r);
    seq(|es|, x requires 0 <= x < |es| => NonZero(es[x].val % Word32, row, es[x].col, NoToken))
  }

  /** The nonzeros of the listed rows in order, each tagged with its row modulo `2^32`. */
  function LaneNonZeros(m: CsrMatrix, ids: seq<nat>): seq<NonZero>
    requires Valid(m) && RowIdsBelow(ids, m.numRows)
    decreases |ids|
  {
    if |ids| == 0 then []
    else
      var last := ids[|ids| - 1];
      LaneNonZeros(m, ids[..|ids| - 1]) + RowNonZeros(m, last, last % Word32)
  }

  /**
   * When every listed row is congruent to `k` and below `bound <= 2^32`, so
   * is the row tag of every nonzero the lane yields, and none is a token.
   */
  lemma {:induction false} LaneNonZerosRows(m: CsrMatrix, ids: seq<nat>, packSize: nat, k: nat, bound: nat)
    requires Valid(m) && RowIdsBelow(ids, m.numRows) && packSize > 0 && bound <= Word32
    requires forall t :: 0 <= t < |ids| ==> ids[t] % packSize == k && ids[t] < bound
    ensures forall x :: 0 <= x < |LaneNonZeros(m, ids)| ==>
              && LaneNonZeros(m, ids)[x].token == NoToken
              && LaneNonZeros(m, ids)[x].rowIndex % packSize == k
              && LaneNonZeros(m, ids)[x].rowIndex < bound
    decreases |ids|
  {
    if |ids| > 0 {
      var front := ids[..|ids| - 1];
      var last := ids[|ids| - 1];
      assert forall t :: 0 <= t < |front| ==> front[t] == ids[t];
      LaneNonZerosRows(m, front, packSize, k, bound);
      assert last % Word32 == last;
      var a: seq<NonZero> := LaneNonZeros(m, front);
      var b: seq<NonZero> := RowNonZeros(m, last, last % Word32);
      assert LaneNonZeros(m, ids) == a + b;
      forall x | |a| <= x < |a + b|
        ensures (a + b)[x].token == NoToken && (a + b)[x].rowIndex == last
      {
        assert (a + b)[x] == b[x - |a|];
      }
    }
  }

  /** Rows `first, first + step, first + 2*step, ...`. */
  predicate Spaced(ids: seq<nat>, first: nat, step: nat) {
    && (|ids| > 0 ==> ids[0] == first)
    && forall t :: 0 < t < |ids| ==> ids[t] == ids[t - 1] + step
  }

  /** The row after the listed ones, where the lane's counter points once they are done. */
  function NextRow(ids: seq<nat>, first: nat, step: nat): nat {
    if |ids| == 0 then first else ids[|ids| - 1] + step
  }

  /** Adding to a residue gives the residue of the sum. */
  lemma ModAdd(a: nat, b: nat)
    ensures (a % Word32 + b) % Word32 == (a + b) % Word32
  {
    var q := a / Word32;
    var r := a % Word32;
    var s := (r + b) / Word32;
    var t := (r + b) % Word32;
    assert a + b == (q + s) * Word32 + t;
    DivModUnique(a + b, Word32, q + s, t);
  }

  /** Packets whose index is below the marker: the lane emits each as a nonzero of the current row. */
  lemma {:induction false} PlainRun(ps: seq<Packet>, counter: nat, out: seq<NonZero>, packSize: nat)
    requires forall x :: 0 <= x < |ps| ==> ps[x].index < NextRowMarker
    ensures Run(WrapAll(ps), LaneState(counter, out), packSize)
            == LaneState(counter, out + seq(|ps|, x requires 0 <= x < |ps| =>
                                             NonZero(ps[x].value % Word32, counter, ps[x].index, NoToken)))
    decreases |ps|
  {
    var nzs := seq(|ps|, x requires 0 <= x < |ps| => NonZero(ps[x].value % Word32, counter, ps[x].index, NoToken));
    if |ps| == 0 {
      assert out + nzs == out;
    } else {
      var n := |ps|;
      var front := ps[..n - 1];
      PlainRun(front, counter, out, packSize);
      assert WrapAll(ps)[..n - 1] == WrapAll(front);
      SmallMod(ps[n - 1].index, Word32);
      var nzsFront := seq(|front|, x requires 0 <= x < |front| =>
                            NonZero(front[x].value % Word32, counter, front[x].index, NoToken));
      assert nzs == nzsFront + [nzs[n - 1]];
    }
  }

  /** One row's packets: the row's nonzeros under the current counter. */
  lemma RowRun(m: CsrMatrix, r: nat, counter: nat, out: seq<NonZero>, packSize: nat)
    requires Valid(m) && r < m.numRows && IndicesBelow(m, NextRowMarker)
    ensures Run(WrapAll(RowPackets(m, r)), LaneState(counter, out), packSize)
            == LaneState(counter, out + RowNonZeros(m, r, counter))
  {
    var ps := RowPackets(m, r);
    RowColsBelow(m, r, NextRowMarker);
    PlainRun(ps, counter, out, packSize);
  }

  /** The marker moves the counter on by `packSize` rows, modulo `2^32`. */
  lemma MarkerRun(counter: nat, out: seq<NonZero>, packSize: nat)
    ensures Run(WrapAll([Marker]), LaneState(counter, out), packSize)
            == LaneState((counter + packSize) % Word32, out)
  {
    SmallMod(NextRowMarker, Word32);
    SmallMod(1, Word32);
    assert WrapAll([Marker]) == [Marker];
    assert WrapAll([Marker])[..0] == [];
  }

  /**
   * A lane fed the rows `ids`, spaced `packSize` apart from its own index
   * `k`, emits exactly those rows' nonzeros with their rows as row indices,
   * and leaves its counter on the row after them (all modulo `2^32`).
   */
  lemma {:induction false} DecodeRows(m: CsrMatrix, ids: seq<nat>, k: nat, packSize: nat)
    requires Valid(m) && RowIdsBelow(ids, m.numRows) && IndicesBelow(m, NextRowMarker)
    requires Spaced(ids, k, packSize)
    ensures Run(WrapAll(JoinRows(m, ids)), LaneState(k % Word32, []), packSize)
            == LaneState(NextRow(ids, k, packSize) % Word32, LaneNonZeros(m, ids))
    decreases |ids|
  {
    if |ids| == 0 {
      assert WrapAll(JoinRows(m, ids)) == [];
    } else {
      var front := ids[..|ids| - 1];
      var last := ids[|ids| - 1];
      Unfold(m, ids, k, packSize);
      DecodeRows(m, front, k, packSize);
      JoinStep(m, last, JoinRows(m, front), LaneState(k % Word32, []), LaneNonZeros(m, front), packSize);
    }
  }

  /** The last listed row, peeled off. */
  lemma Unfold(m: CsrMatrix, ids: seq<nat>, k: nat, packSize: nat)
    requires Valid(m) && RowIdsBelow(ids, m.numRows) && Spaced(ids, k, packSize) && |ids| > 0
    ensures RowIdsBelow(ids[..|ids| - 1], m.numRows) && Spaced(ids[..|ids| - 1], k, packSize)
    ensures NextRow(ids[..|ids| - 1], k, packSize) == ids[|ids| - 1]
    ensures NextRow(ids, k, packSize) == ids[|ids| - 1] + packSize
    ensures JoinRows(m, ids) == JoinRows(m, ids[..|ids| - 1]) + RowPackets(m, ids[|ids| - 1]) + [Marker]
    ensures LaneNonZeros(m, ids)
            == LaneNonZeros(m, ids[..|ids| - 1]) + RowNonZeros(m, ids[|ids| - 1], ids[|ids| - 1] % Word32)
  {
  }

  /** After a prefix that leaves the counter on row `r`, row `r` and its marker add its nonzeros. */
  lemma JoinStep(m: CsrMatrix, r: nat, prefix: seq<Packet>, init: LaneState, out: seq<NonZero>, packSize: nat)
    requires Valid(m) && r < m.numRows && IndicesBelow(m, NextRowMarker)
    requires Run(WrapAll(prefix), init, packSize) == LaneState(r % Word32, out)
    ensures Run(WrapAll(prefix + RowPackets(m, r) + [Marker]), init, packSize)
            == LaneState((r + packSize) % Word32, out + RowNonZeros(m, r, r % Word32))
  {
    RunThree(prefix, RowPackets(m, r), [Marker], init, packSize);
    RowRun(m, r, r % Word32, out, packSize);
    MarkerRun(r % Word32, out + RowNonZeros(m, r, r % Word32), packSize);
    ModAdd(r, packSize);
  }

  /** Running three pieces read back from memory is running each in turn. */
  lemma RunThree(a: seq<Packet>, b: seq<Packet>, c: seq<Packet>, init: LaneState, packSize: nat)
    ensures Run(WrapAll(a + b + c), init, packSize)
            == Run(WrapAll(c), Run(WrapAll(b), Run(WrapAll(a), init, packSize), packSize), packSize)
  {
    WrapAllAppend(a + b, c);
    WrapAllAppend(a, b);
    RunAppend(WrapAll(a) + WrapAll(b), WrapAll(c), init, packSize);
    RunAppend(WrapAll(a), WrapAll(b), init, packSize);
  }

  /** The rows stream `k` of `packSize` streams carries are spaced `packSize` apart from `k`. */
  lemma LaneRowIdsSpaced(n: nat, packSize: nat, k: nat)
    requires packSize > 0 && k < packSize
    ensures Spaced(LaneRowIds(n, packSize, k), k, packSize)
  {
    var ids := LaneRowIds(n, packSize, k);
    LaneRowIdsShape(n, packSize, k);
    forall t | 0 < t < |ids|
      ensures ids[t] == ids[t - 1] + packSize
    {
      assert t * packSize == (t - 1) * packSize + packSize;
    }
  }

  /**
   * Lane `k` fed stream `k` of a tile cut into `packSize` streams emits the
   * nonzeros of rows `k, k + packSize, ...` in order, each tagged with its
   * own row.
   */
  lemma DecodeStream(m: CsrMatrix, packSize: nat, k: nat)
    requires Valid(m) && IndicesBelow(m, NextRowMarker) && packSize > 0 && k < packSize
    ensures RowIdsBelow(LaneRowIds(m.numRows, packSize, k), m.numRows)
    ensures Run(WrapAll(Stream(m, packSize, k)), LaneState(k % Word32, []), packSize).out
            == LaneNonZeros(m, LaneRowIds(m.numRows, packSize, k))
  {
    StreamIsJoin(m, packSize, k, m.numRows);
    LaneRowIdsSpaced(m.numRows, packSize, k);
    DecodeRows(m, LaneRowIds(m.numRows, packSize, k), k, packSize);
  }
}
